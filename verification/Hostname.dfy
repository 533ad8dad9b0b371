/** The reversed host name under which virtual hosts are looked up: labels from right to
    left, each behind its length, in lower case. */
module Hostname {
  import opened Wire

  /** The pieces between dots, in the order the host is scanned; nothing follows a final
      dot. */
  function Pieces(s: string): seq<string> {
    if s == [] then [] else Grow(s[0], Pieces(s[1..]))
  }

  /** One more character in front: a dot ends a piece before it starts, another one joins the
      first piece. */
  function Grow(c: char, ps: seq<string>): seq<string> {
    if c == '.' then [[]] + ps else if ps == [] then [[c]] else [[c] + ps[0]] + ps[1..]
  }

  /** The labels of a host: its non-empty pieces. */
  function Solid(ps: seq<string>): seq<string> {
    if ps == [] then [] else (if ps[0] == [] then [] else [ps[0]]) + Solid(ps[1..])
  }

  function Labels(s: string): seq<string> { Solid(Pieces(s)) }

  /** No piece is longer than 63 bytes and none is met when 251 labels are stacked. */
  predicate Scannable(ps: seq<string>, stacked: nat) {
    if ps == [] then true
    else |ps[0]| <= 63 && stacked <= 250 && Scannable(ps[1..], if ps[0] == [] then stacked else stacked + 1)
  }

  /** A label behind its length byte. */
  function EncLabel(l: string): string
    requires |l| <= 63
  {
    [|l| as char] + Lower(l)
  }

  ghost predicate Short(ls: seq<string>) { forall i | 0 <= i < |ls| :: 0 < |ls[i]| <= 63 }

  /** The key of a list of labels: the last label first. */
  function Enc(ls: seq<string>): string
    requires Short(ls)
  {
    if ls == [] then [] else EncLabel(ls[|ls| - 1]) + Enc(ls[..|ls| - 1])
  }

  /** The key of a host in a buffer of n bytes, without the final NUL. */
  ghost function Key(host: string, n: int): Option<string> {
    if !Scannable(Pieces(host), 0) then None
    else
      SolidIsShort(Pieces(host), 0);
      var k := Enc(Labels(host));
      if Labels(host) == [] || |k| < n then Some(k) else None
  }

  lemma {:induction false} SolidIsShort(ps: seq<string>, stacked: nat)
    requires Scannable(ps, stacked)
    ensures Short(Solid(ps))
  {
    if ps != [] {
      SolidIsShort(ps[1..], if ps[0] == [] then stacked else stacked + 1);
    }
  }

  /** A host up to its first dot, and what follows it. */
  lemma {:induction false} PiecesAt(s: string, i: nat)
    requires i < |s| && s[i] == '.' && forall k | 0 <= k < i :: s[k] != '.'
    ensures Pieces(s) == [s[..i]] + Pieces(s[i + 1..])
  {
    if i == 0 {
      assert s[..0] == [];
    } else {
      PiecesAt(s[1..], i - 1);
      assert s[1..][i..] == s[i + 1..] && [s[0]] + s[1..][..i - 1] == s[..i];
      GrowAppend(s[0], [s[1..][..i - 1]], Pieces(s[i + 1..]));
    }
  }

  lemma GrowAppend(c: char, a: seq<string>, b: seq<string>)
    requires a != [] || c == '.'
    ensures Grow(c, a + b) == Grow(c, a) + b
  {
    if c == '.' {
      Assoc([[]], a, b);
    } else {
      assert (a + b)[1..] == a[1..] + b;
      Assoc([[c] + a[0]], a[1..], b);
    }
  }

  lemma {:induction false} PiecesEnd(s: string)
    requires s != [] && forall k | 0 <= k < |s| :: s[k] != '.'
    ensures Pieces(s) == [s]
  {
    if |s| > 1 {
      PiecesEnd(s[1..]);
      assert [s[0]] + s[1..] == s && Grow(s[0], [s[1..]]) == [s];
    } else {
      assert s[1..] == [] && s == [s[0]];
    }
  }

  lemma PieceCons(p: string, ps: seq<string>, stacked: nat)
    ensures Solid([p] + ps) == (if p == [] then [] else [p]) + Solid(ps)
    ensures Scannable([p] + ps, stacked) <==>
            |p| <= 63 && stacked <= 250 && Scannable(ps, if p == [] then stacked else stacked + 1)
  {
    assert ([p] + ps)[1..] == ps;
  }

  /** What is stacked and what is still to be scanned make up the host. */
  ghost predicate Scanning(host: string, stack: seq<string>, src: string) {
    && (Scannable(Pieces(host), 0) <==> Scannable(Pieces(src), |stack|))
    && Labels(host) == stack + Labels(src)
  }

  lemma ScanningStep(host: string, stack: seq<string>, src: string, piece: string, next: string)
    requires Scanning(host, stack, src) && Pieces(src) == [piece] + Pieces(next)
    ensures |piece| > 63 || |stack| > 250 ==> !Scannable(Pieces(host), 0)
    ensures |piece| <= 63 && |stack| <= 250 ==> Scanning(host, if piece == [] then stack else stack + [piece], next)
  {
    PieceCons(piece, Pieces(next), |stack|);
    if piece == [] {
      assert [] + Labels(next) == Labels(next);
    } else {
      Assoc(stack, [piece], Labels(next));
    }
  }

  lemma ScanningEnd(host: string, stack: seq<string>)
    requires Scanning(host, stack, [])
    ensures Scannable(Pieces(host), 0) && stack == Labels(host)
  {
    assert stack + [] == stack;
  }

  /** memchr: the host up to its first dot, and what follows it. */
  method Cut(src: string) returns (piece: string, next: string)
    requires src != []
    ensures Pieces(src) == [piece] + Pieces(next) && |next| < |src|
  {
    var i := 0;
    while i < |src| && src[i] != '.'
      invariant 0 <= i <= |src| && forall k | 0 <= k < i :: src[k] != '.'
    {
      i := i + 1;
    }
    if i < |src| {
      PiecesAt(src, i);
      return src[..i], src[i + 1..];
    }
    PiecesEnd(src);
    return src, [];
  }

  /** The first loop of revert_hostname: stacks the labels, or fails. */
  method Scan(host: string) returns (ok: bool, stack: seq<string>)
    ensures ok == Scannable(Pieces(host), 0)
    ensures ok ==> stack == Labels(host)
  {
    stack := [];
    var src := host;
    assert [] + Labels(src) == Labels(src);
    while |src| > 0
      invariant Scanning(host, stack, src)
      decreases |src|
    {
      var piece, next := Cut(src);
      ScanningStep(host, stack, src, piece, next);
      src := next;
      if |piece| > 63 || |stack| > 250 { return false, stack; }
      if |piece| != 0 { stack := stack + [piece]; }
    }
    ScanningEnd(host, stack);
    return true, stack;
  }

  /** revert_hostname: dst holds the key and its NUL on success. On failure it holds an
      empty string if the host does not scan, and as many labels of the key as fit if it does. */
  method RevertHostname(host: string, dst: array<char>) returns (ok: bool, len: nat)
    requires dst.Length > 0
    modifies dst
    ensures len < dst.Length && dst[len] == '\0'
    ensures Key(host, dst.Length) == if ok then Some(dst[..len]) else None
    ensures !Scannable(Pieces(host), 0) ==> len == 0
    ensures Scannable(Pieces(host), 0) ==>
      Short(Labels(host)) && exists top :: 0 <= top <= |Labels(host)| && KeyPart(dst[..len], Labels(host), top)
  {
    var stack;
    ok, stack := Scan(host);
    len := 0;
    if !ok {
      dst[0] := '\0';
      return;
    }
    SolidIsShort(Pieces(host), 0);
    ok, len := Emit(stack, dst);
  }

  /** What the second loop has written when top labels are left. */
  ghost predicate KeyPart(written: string, stack: seq<string>, top: nat)
    requires Short(stack) && top <= |stack|
  {
    written + Enc(stack[..top]) == Enc(stack)
  }

  /** The second loop of revert_hostname: unstacks the labels into the buffer. */
  method Emit(stack: seq<string>, dst: array<char>) returns (ok: bool, len: nat)
    requires dst.Length > 0 && Short(stack)
    modifies dst
    ensures ok == (|Enc(stack)| < dst.Length)
    ensures len < dst.Length && dst[len] == '\0' && (ok ==> dst[..len] == Enc(stack))
    ensures exists top :: 0 <= top <= |stack| && KeyPart(dst[..len], stack, top)
  {
    len := 0;
    var room := dst.Length;
    var top: nat := |stack|;
    assert stack[..top] == stack;
    while top > 0
      invariant top <= |stack| && len < dst.Length && room == dst.Length - len
      invariant KeyPart(dst[..len], stack, top)
    {
      room := room - (|stack[top - 1]| + 1);
      EncTop(stack, top - 1);
      if room <= 0 {
        ghost var before := dst[..len];
        dst[len] := '\0';
        assert dst[..len] == before;
        return false, len;
      }
      top := top - 1;
      ghost var before := dst[..len];
      len := EmitLabel(dst, len, stack[top]);
      Assoc(before, EncLabel(stack[top]), Enc(stack[..top]));
    }
    ghost var before := dst[..len];
    dst[len] := '\0';
    assert dst[..len] == before == before + Enc(stack[..0]);
    return true, len;
  }

  /** Appends a label behind its length byte. */
  method EmitLabel(dst: array<char>, at: nat, piece: string) returns (end: nat)
    requires at + 1 + |piece| < dst.Length && |piece| <= 63
    modifies dst
    ensures end == at + 1 + |piece| && dst[..end] == old(dst[..at]) + EncLabel(piece)
  {
    dst[at] := |piece| as char;
    assert dst[..at + 1] == dst[..at] + [|piece| as char];
    end := CopyLower(dst, at + 1, piece);
    assert dst[..end] == dst[..at + 1] + dst[at + 1..end];
  }

  method CopyLower(dst: array<char>, at: nat, piece: string) returns (end: nat)
    requires at + |piece| < dst.Length
    modifies dst
    ensures end == at + |piece| && dst[..at] == old(dst[..at]) && dst[at..end] == Lower(piece)
  {
    end := at;
    for i := 0 to |piece|
      invariant end == at + i
      invariant forall k | 0 <= k < at :: dst[k] == old(dst[k])
      invariant forall k | at <= k < end :: dst[k] == LowerChar(piece[k - at])
    {
      dst[end] := LowerChar(piece[i]);
      end := end + 1;
    }
  }

  lemma EncTop(stack: seq<string>, top: nat)
    requires top < |stack| && Short(stack)
    ensures Short(stack[..top + 1]) && Enc(stack[..top + 1]) == EncLabel(stack[top]) + Enc(stack[..top])
    ensures |stack[top]| + 1 == |EncLabel(stack[top])|
  {
    assert stack[..top + 1][..top] == stack[..top];
  }

  function LowerAll(ls: seq<string>): seq<string> {
    seq(|ls|, i requires 0 <= i < |ls| => Lower(ls[i]))
  }

  ghost predicate IsSuffix<T>(d: seq<T>, h: seq<T>) {
    |d| <= |h| && h[|h| - |d|..] == d
  }

  /** The host h lies in the domain d: it ends in its labels, up to case. */
  ghost predicate InDomain(d: seq<string>, h: seq<string>) {
    |d| <= |h| && forall i :: 0 <= i < |d| ==> SameText(d[i], h[|h| - |d| + i])
  }

  lemma SuffixIsDomain(d: seq<string>, h: seq<string>)
    ensures IsSuffix(LowerAll(d), LowerAll(h)) <==> InDomain(d, h)
  {
    var n := |h| - |d|;
    if n >= 0 {
      var tail := LowerAll(h)[n..];
      assert forall i :: 0 <= i < |d| ==> tail[i] == Lower(h[n + i]) && LowerAll(d)[i] == Lower(d[i]);
      forall i | 0 <= i < |d| ensures Lower(d[i]) == Lower(h[n + i]) <==> SameText(d[i], h[n + i]) {
        LowerIsText(d[i], h[n + i]);
      }
      if InDomain(d, h) { assert tail == LowerAll(d); }
    }
  }

  /** One key starts with another exactly when its host lies in the other's domain. */
  lemma KeyPrefixIsDomain(d: seq<string>, h: seq<string>)
    requires Short(d) && Short(h)
    ensures Enc(d) <= Enc(h) <==> InDomain(d, h)
  {
    KeyPrefixIsSuffix(d, h);
    SuffixIsDomain(d, h);
  }

  lemma {:induction false} KeyPrefixIsSuffix(d: seq<string>, h: seq<string>)
    requires Short(d) && Short(h)
    ensures Enc(d) <= Enc(h) <==> IsSuffix(LowerAll(d), LowerAll(h))
    decreases |d|
  {
    if d == [] {
    } else if h == [] {
      assert Enc(d) != [];
    } else {
      var x, y := d[|d| - 1], h[|h| - 1];
      var d', h' := d[..|d| - 1], h[..|h| - 1];
      KeyPrefixIsSuffix(d', h');
      LabelIsPrefixFree(x, y, Enc(d'), Enc(h'));
      LowerFront(d);
      LowerFront(h);
      SuffixStep(LowerAll(d), LowerAll(h));
    }
  }

  lemma LowerFront(d: seq<string>)
    requires d != []
    ensures var l := LowerAll(d);
            |l| == |d| && l[|l| - 1] == Lower(d[|d| - 1]) && l[..|l| - 1] == LowerAll(d[..|d| - 1])
  {
  }

  lemma SuffixStep<T>(d: seq<T>, h: seq<T>)
    requires d != [] && h != []
    ensures IsSuffix(d, h) <==> d[|d| - 1] == h[|h| - 1] && IsSuffix(d[..|d| - 1], h[..|h| - 1])
  {
    var n := |h| - |d|;
    if n >= 0 {
      assert h[n..] == h[n..|h| - 1] + [h[|h| - 1]];
      assert d == d[..|d| - 1] + [d[|d| - 1]];
      assert h[..|h| - 1][n..] == h[n..|h| - 1];
    }
  }

  lemma LabelIsPrefixFree(x: string, y: string, a: string, b: string)
    requires 0 < |x| <= 63 && 0 < |y| <= 63
    ensures EncLabel(x) + a <= EncLabel(y) + b <==> Lower(x) == Lower(y) && a <= b
  {
    var p, q := EncLabel(x) + a, EncLabel(y) + b;
    if p <= q {
      assert p[0] == q[0];
      assert |x| == |y|;
      assert Lower(x) == p[1..|x| + 1] == q[1..|x| + 1] == Lower(y);
      assert a == p[|x| + 1..] && b == q[|x| + 1..];
    }
  }

  ghost predicate SameLabels(d: seq<string>, h: seq<string>) {
    |d| == |h| && forall i :: 0 <= i < |d| ==> SameText(d[i], h[i])
  }

  lemma DomainsMeet(d: seq<string>, h: seq<string>)
    ensures InDomain(d, h) && InDomain(h, d) <==> SameLabels(d, h)
  {
    if SameLabels(d, h) {
      forall i | 0 <= i < |d| ensures SameText(h[i], d[i]) { SameBothWays(d[i], h[i]); }
    }
    if |d| == |h| && InDomain(d, h) {
      forall i | 0 <= i < |d| ensures SameText(d[i], h[i]) { assert SameText(d[i], h[|h| - |d| + i]); }
    }
  }

  lemma SameBothWays(a: string, b: string)
    requires SameText(a, b)
    ensures SameText(b, a)
  {
    forall i | 0 <= i < |b| ensures SameLetter(b[i], a[i]) { assert SameLetter(a[i], b[i]); }
  }

  /** Hosts have the same key exactly when their labels agree up to case. */
  lemma KeyIsInjective(d: seq<string>, h: seq<string>)
    requires Short(d) && Short(h)
    ensures Enc(d) == Enc(h) <==> SameLabels(d, h)
  {
    KeyPrefixIsDomain(d, h);
    KeyPrefixIsDomain(h, d);
    DomainsMeet(d, h);
    assert Enc(d) <= Enc(h) && Enc(h) <= Enc(d) ==> Enc(d) == Enc(h);
  }

  /** A host written out from its labels. */
  function Dotted(ls: seq<string>): string {
    if ls == [] then [] else if |ls| == 1 then ls[0] else ls[0] + "." + Dotted(ls[1..])
  }

  /** The labels of a host are those it was written from. */
  lemma {:induction false} LabelsOfHost(ls: seq<string>)
    requires forall l <- ls :: l != [] && '.' !in l
    ensures Labels(Dotted(ls)) == ls
  {
    if ls != [] {
      var first, host := ls[0], Dotted(ls);
      assert first in ls;
      if |ls| == 1 {
        PiecesEnd(first);
        assert [first][1..] == [] && Solid([first]) == [first] + Solid([]);
        assert [first] == ls;
      } else {
        assert forall l <- ls[1..] :: l in ls;
        LabelsOfHost(ls[1..]);
        assert host[..|first|] == first && host[|first| + 1..] == Dotted(ls[1..]);
        PiecesAt(host, |first|);
        PieceCons(first, Pieces(Dotted(ls[1..])), 0);
        assert [first] + ls[1..] == ls;
      }
    }
  }

  /** kgl_acl_host: the host without its trailing dots. */
  method AclHost(host: string) returns (r: string)
    ensures r == Stripped(host)
  {
    var len := |host|;
    assert host[..len] == host;
    while len > 0 && host[len - 1] == '.'
      invariant 0 <= len <= |host| && Stripped(host[..len]) == Stripped(host)
    {
      assert host[..len][..len - 1] == host[..len - 1];
      len := len - 1;
    }
    return host[..len];
  }

  function Stripped(s: string): string {
    if s == [] || s[|s| - 1] != '.' then s else Stripped(s[..|s| - 1])
  }

  /** What one more dot adds to the pieces of a host. */
  lemma {:induction false} PiecesDot(t: string)
    ensures Pieces(t + ".") == Pieces(t) + if t == [] || t[|t| - 1] == '.' then [[]] else []
  {
    if t != [] {
      assert (t + ".")[0] == t[0] && (t + ".")[1..] == t[1..] + ".";
      PiecesDot(t[1..]);
      var u := t[1..];
      var more := if u == [] || u[|u| - 1] == '.' then [[]] else [];
      if u == [] && t[0] != '.' {
        assert Pieces(u) + more == [[]] && [t[0]] + [] == [t[0]] && Grow(t[0], [[]]) == [[t[0]]];
      } else {
        NoPieces(u);
        GrowAppend(t[0], Pieces(u), more);
      }
    }
  }

  lemma NoPieces(s: string)
    ensures Pieces(s) == [] <==> s == []
  {
  }

  lemma {:induction false} EmptyPiece(ps: seq<string>, stacked: nat)
    ensures Solid(ps + [[]]) == Solid(ps)
    ensures Scannable(ps + [[]], stacked) <==> Scannable(ps, stacked) && stacked + |Solid(ps)| <= 250
  {
    if ps == [] {
      assert ps + [[]] == [[]];
    } else {
      assert (ps + [[]])[1..] == ps[1..] + [[]];
      EmptyPiece(ps[1..], if ps[0] == [] then stacked else stacked + 1);
    }
  }

  /** A run of trailing dots makes no label, but the scan refuses it behind 251 labels. */
  lemma {:induction false} TrailingDots(host: string)
    ensures Labels(host) == Labels(Stripped(host))
    ensures Scannable(Pieces(host), 0) <==>
      Scannable(Pieces(Stripped(host)), 0) && (|host| >= |Stripped(host)| + 2 ==> |Labels(host)| <= 250)
    decreases |host|
  {
    if host != [] && host[|host| - 1] == '.' {
      var u := host[..|host| - 1];
      assert host == u + ".";
      OneDot(u);
      StrippedEnd(u);
      if u == [] || u[|u| - 1] == '.' { TrailingDots(u); }
    }
  }

  /** One more dot: nothing behind a label, an empty piece behind a dot. */
  lemma OneDot(u: string)
    ensures Labels(u + ".") == Labels(u)
    ensures Scannable(Pieces(u + "."), 0) <==>
      Scannable(Pieces(u), 0) && (u == [] || u[|u| - 1] == '.' ==> |Labels(u)| <= 250)
  {
    PiecesDot(u);
    if u == [] || u[|u| - 1] == '.' {
      EmptyPiece(Pieces(u), 0);
    } else {
      assert Pieces(u) + [] == Pieces(u);
    }
  }

  lemma {:induction false} StrippedEnd(s: string)
    ensures |Stripped(s)| <= |s| && (|Stripped(s)| == |s| <==> s == [] || s[|s| - 1] != '.')
  {
    if s != [] && s[|s| - 1] == '.' { StrippedEnd(s[..|s| - 1]); }
  }

  ghost predicate AtMost63(ls: seq<string>) { forall i | 0 <= i < |ls| :: |ls[i]| <= 63 }

  /** The size of a key: each label and its length byte. */
  function KeySize(ls: seq<string>): nat {
    if ls == [] then 0 else |ls[|ls| - 1]| + 1 + KeySize(ls[..|ls| - 1])
  }

  lemma {:induction false} KeySizeIs(ls: seq<string>)
    requires Short(ls)
    ensures |Enc(ls)| == KeySize(ls)
  {
    if ls != [] { KeySizeIs(ls[..|ls| - 1]); }
  }

  /** The last piece decides how many labels the scan allows. */
  lemma {:induction false} ScannableIs(ps: seq<string>, stacked: nat)
    ensures Scannable(ps, stacked) <==>
      AtMost63(Solid(ps)) && (ps != [] ==> stacked + |Solid(ps[..|ps| - 1])| <= 250)
  {
    if |ps| > 1 {
      var rest := ps[1..];
      ScannableIs(rest, if ps[0] == [] then stacked else stacked + 1);
      assert ps[..|ps| - 1] == [ps[0]] + rest[..|rest| - 1];
      PieceCons(ps[0], rest[..|rest| - 1], stacked);
      AtMostFront(ps[0], rest);
    } else if |ps| == 1 {
      assert ps == [ps[0]] + [] && ps[..0] == [];
      AtMostFront(ps[0], []);
    }
  }

  lemma AtMostFront(p: string, ps: seq<string>)
    ensures AtMost63(Solid([p] + ps)) <==> |p| <= 63 && AtMost63(Solid(ps))
  {
    PieceCons(p, ps, 0);
    var all, rest := Solid([p] + ps), Solid(ps);
    if p == [] {
      assert [] + rest == rest;
    } else {
      assert all[0] == p && |all| == |rest| + 1;
      forall i | 0 <= i < |rest| ensures rest[i] == all[i + 1] { }
      if AtMost63(all) { forall i | 0 <= i < |rest| ensures |rest[i]| <= 63 { assert rest[i] == all[i + 1]; } }
      if AtMost63(rest) && |p| <= 63 {
        forall i | 0 <= i < |all| ensures |all[i]| <= 63 { assert i > 0 ==> all[i] == rest[i - 1]; }
      }
    }
  }

  lemma {:induction false} SolidLast(ps: seq<string>)
    requires ps != [] && ps[|ps| - 1] != []
    ensures |Solid(ps)| == |Solid(ps[..|ps| - 1])| + 1
  {
    if |ps| == 1 {
      assert ps[..0] == [] && ps[1..] == [];
    } else {
      var rest := ps[1..];
      SolidLast(rest);
      assert ps[..|ps| - 1] == [ps[0]] + rest[..|rest| - 1];
      PieceCons(ps[0], rest[..|rest| - 1], 0);
    }
  }

  /** A host that does not end in a dot ends in a label. */
  lemma {:induction false} LastPiece(s: string)
    requires s != [] && s[|s| - 1] != '.'
    ensures Pieces(s) != [] && Pieces(s)[|Pieces(s)| - 1] != []
  {
    if |s| > 1 {
      var u := s[1..];
      LastPiece(u);
      var n := |Pieces(u)|;
      assert s[0] == '.' ==> Pieces(s)[n] == Pieces(u)[n - 1];
      assert s[0] != '.' && n > 1 ==> Pieces(s)[n - 1] == Pieces(u)[n - 1];
    }
  }

  /** A host without trailing dots scans if its labels are short and no more than 251. */
  lemma StrippedScans(host: string)
    ensures Scannable(Pieces(Stripped(host)), 0) <==> AtMost63(Labels(host)) && |Labels(host)| <= 251
  {
    var s := Stripped(host);
    TrailingDots(host);
    StrippedEnd(s);
    StrippedTwice(host);
    ScannableIs(Pieces(s), 0);
    if s != [] {
      LastPiece(s);
      SolidLast(Pieces(s));
    }
  }

  lemma {:induction false} StrippedTwice(s: string)
    ensures Stripped(Stripped(s)) == Stripped(s)
  {
    if s != [] && s[|s| - 1] == '.' { StrippedTwice(s[..|s| - 1]); }
  }

  /** A host and its kgl_acl_host form have the same key or no key, except a host of 251
      labels and two or more trailing dots in a buffer that would hold them. */
  lemma AclHostKeepsKey(host: string, n: int)
    ensures Key(host, n) == Key(Stripped(host), n) <==>
      !(&& |host| >= |Stripped(host)| + 2 && |Labels(host)| == 251 && AtMost63(Labels(host))
        && KeySize(Labels(host)) < n)
  {
    TrailingDots(host);
    StrippedScans(host);
    if Scannable(Pieces(Stripped(host)), 0) {
      SolidIsShort(Pieces(Stripped(host)), 0);
      KeySizeIs(Labels(host));
    }
  }

  /** In a buffer of at most 502 bytes there is no exception. */
  lemma AclHostKeepsShortKey(host: string, n: int)
    requires n <= 502
    ensures Key(host, n) == Key(Stripped(host), n)
  {
    AclHostKeepsKey(host, n);
    TrailingDots(host);
    if Scannable(Pieces(Stripped(host)), 0) {
      SolidIsShort(Pieces(Stripped(host)), 0);
      EncIsLong(Labels(Stripped(host)));
    }
  }

  lemma {:induction false} EncIsLong(ls: seq<string>)
    requires Short(ls)
    ensures |Enc(ls)| >= 2 * |ls|
  {
    if ls != [] { EncIsLong(ls[..|ls| - 1]); }
  }

  function Many(k: nat): string { if k == 0 then [] else "a." + Many(k - 1) }

  function Copies(k: nat): seq<string> { if k == 0 then [] else ["a"] + Copies(k - 1) }

  lemma {:induction false} ManyPieces(k: nat)
    ensures Pieces(Many(k)) == Copies(k)
  {
    if k > 0 {
      ManyPieces(k - 1);
      OnePiece(Many(k - 1));
    }
  }

  lemma {:induction false} ManyEndsInDot(k: nat)
    requires k > 0
    ensures Many(k) != [] && Many(k)[|Many(k)| - 1] == '.'
  {
    if k > 1 { ManyEndsInDot(k - 1); }
  }

  lemma OnePiece(rest: string)
    ensures Pieces("a." + rest) == ["a"] + Pieces(rest)
  {
    var s := "a." + rest;
    assert s[..1] == "a" && s[1] == '.' && s[2..] == rest;
    PiecesAt(s, 1);
  }

  lemma {:induction false} CopiesScan(k: nat, stacked: nat)
    ensures Solid(Copies(k)) == Copies(k)
    ensures k > 0 ==> (Scannable(Copies(k), stacked) <==> stacked + k <= 251)
  {
    if k > 0 {
      CopiesScan(k - 1, stacked + 1);
      assert Copies(k)[1..] == Copies(k - 1);
    }
  }

  lemma {:induction false} CopiesEnc(k: nat)
    ensures |Copies(k)| == k && forall i | 0 <= i < k :: Copies(k)[i] == "a"
    ensures |Enc(Copies(k))| == 2 * k
  {
    if k > 0 {
      CopiesEnc(k - 1);
      assert Copies(k)[..k - 1] == Copies(k - 1);
    }
  }

  /** Such a host: it has a key without its two trailing dots and none with them. */
  lemma AclHostLosesKey()
    ensures Key(Many(251) + ".", 503) == None && Key(Stripped(Many(251) + "."), 503).Some?
  {
    var m := Many(251);
    var host := m + ".";
    ManyPieces(251);
    ManyEndsInDot(251);
    CopiesScan(251, 0);
    CopiesEnc(251);
    assert host[..|host| - 1] == m && host[|host| - 1] == '.';
    StrippedEnd(m);
    TrailingDots(m);
    TrailingDots(host);
  }
}
