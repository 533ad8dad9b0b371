/** The in-place path normaliser: separators collapse to one split character, "."
    components vanish and ".." components take the one before them along. */
module PathTrip {
  predicate IsSep(c: char) { c == '/' || c == '\\' }

  /** The maximal prefix without a separator. */
  function Name(s: string): (r: string)
    ensures |r| <= |s| && (s != [] && !IsSep(s[0]) ==> r != [])
  {
    if s == [] || IsSep(s[0]) then [] else [s[0]] + Name(s[1..])
  }

  function SkipSeps(s: string): (r: string)
    ensures |r| <= |s| && (r != [] ==> !IsSep(r[0]))
  {
    if s == [] || !IsSep(s[0]) then s else SkipSeps(s[1..])
  }

  /** A component acts on the stack of written segments; a segment is a name with the
      split character before it, which only a leading name lacks. */
  function Apply(out: seq<string>, lead: string, name: string): seq<string> {
    if name == "." then out
    else if name == ".." then (if out == [] then [] else out[..|out| - 1])
    else out + [lead + name]
  }

  function Join(out: seq<string>): string {
    if out == [] then [] else Join(out[..|out| - 1]) + out[|out| - 1]
  }

  function Walk(s: string, out: seq<string>, split: char): string
    decreases |s|
  {
    if s == [] then Join(out)
    else
      var t := SkipSeps(s);
      if t == [] then Join(out) + [split]
      else
        var name := Name(t);
        Walk(t[|name|..], Apply(out, if |t| < |s| then [split] else [], name), split)
  }

  function Normalize(s: string, split: char): string { Walk(s, [], split) }

  /** The stack of segments as the array holds it. */
  ghost predicate Segments(out: seq<string>, split: char) {
    forall i | 0 <= i < |out| ::
      && out[i] != []
      && (forall j | 0 < j < |out[i]| :: !IsSep(out[i][j]))
      && (i > 0 || IsSep(out[i][0]) ==> out[i][0] == split && 1 < |out[i]|)
  }

  lemma {:induction false} JoinAppend(a: seq<string>, b: seq<string>)
    ensures Join(a + b) == Join(a) + Join(b)
  {
    if b == [] {
      assert a + b == a;
    } else {
      var front, last := b[..|b| - 1], b[|b| - 1];
      assert (a + b)[..|a + b| - 1] == a + front;
      JoinAppend(a, front);
      assert (Join(a) + Join(front)) + last == Join(a) + (Join(front) + last);
    }
  }

  lemma {:induction false} NameIs(s: string, k: nat)
    requires k <= |s| && (forall i | 0 <= i < k :: !IsSep(s[i])) && (k < |s| ==> IsSep(s[k]))
    ensures Name(s) == s[..k]
  {
    if k > 0 { NameIs(s[1..], k - 1); }
  }

  lemma {:induction false} NameIsClean(s: string)
    ensures forall c <- Name(s) :: !IsSep(c)
  {
    if s != [] && !IsSep(s[0]) { NameIsClean(s[1..]); }
  }

  lemma WalkStep(s: string, out: seq<string>, split: char)
    requires SkipSeps(s) != []
    ensures
      var t := SkipSeps(s);
      var lead := if |t| < |s| then [split] else [];
      Walk(s, out, split) == Walk(t[|Name(t)|..], Apply(out, lead, Name(t)), split)
  {
  }

  lemma {:induction false} SkipSepsIs(s: string, k: nat)
    requires k <= |s| && (forall i | 0 <= i < k :: IsSep(s[i])) && (k < |s| ==> !IsSep(s[k]))
    ensures SkipSeps(s) == s[k..]
  {
    if k > 0 { SkipSepsIs(s[1..], k - 1); }
  }

  method SkipRun(path: array<char>, hot: nat, ghost n: nat) returns (h: nat)
    requires hot <= n < path.Length && path[n] == '\0'
    ensures hot <= h <= n && path[h..n] == SkipSeps(path[hot..n])
    ensures h < n ==> !IsSep(path[h])
    ensures hot < n && IsSep(path[hot]) ==> hot < h
  {
    h := hot;
    while IsSep(path[h])
      invariant hot <= h <= n && forall i | hot <= i < h :: IsSep(path[i])
      decreases n - h
    {
      h := h + 1;
    }
    SkipSepsIs(path[hot..n], h - hot);
  }

  method NameEnd(path: array<char>, hot: nat, ghost n: nat) returns (p: nat)
    requires hot <= n < path.Length && path[n] == '\0'
    requires '\0' !in path[hot..n]
    ensures hot <= p <= n && path[hot..p] == Name(path[hot..n])
    ensures p < n ==> IsSep(path[p])
  {
    p := hot;
    while path[p] != '\0' && !IsSep(path[p])
      invariant hot <= p <= n && forall i | hot <= i < p :: !IsSep(path[i])
      decreases n - p
    {
      p := p + 1;
    }
    assert p < n ==> path[p] in path[hot..n];
    NameIs(path[hot..n], p - hot);
    assert path[hot..p] == path[hot..n][..p - hot];
  }

  method Write(path: array<char>, src: nat, c: char, ghost before: string)
    requires src < path.Length && path[..src] == before
    modifies path
    ensures path[..src + 1] == before + [c]
    ensures path[src + 1..] == old(path[src + 1..])
  {
    path[src] := c;
    assert path[..src + 1] == path[..src] + [c];
  }

  /** Copies a component down over what was dropped before it. */
  method CopyDown(path: array<char>, src: nat, hot: nat, len: nat)
    requires src <= hot && hot + len <= path.Length
    modifies path
    ensures path[..src] == old(path[..src])
    ensures path[src..src + len] == old(path[hot..hot + len])
    ensures path[hot + len..] == old(path[hot + len..])
  {
    for i := 0 to len
      invariant forall k | 0 <= k < src :: path[k] == old(path[k])
      invariant forall k | src <= k < src + i :: path[k] == old(path[k + (hot - src)])
      invariant forall k | hot + i <= k < path.Length :: path[k] == old(path[k])
    {
      path[src + i] := path[hot + i];
    }
  }

  /** Where the last segment starts: at a split character, unless at the start of the path. */
  lemma LastSegment(s: string, out: seq<string>, split: char) returns (base: nat)
    requires s == Join(out) && s != [] && IsSep(split) && Segments(out, split)
    ensures base < |s| && out != [] && s[..base] == Join(out[..|out| - 1])
    ensures forall j | base < j < |s| :: s[j] != split
    ensures base > 0 ==> s[base] == split
  {
    var last := out[|out| - 1];
    base := |Join(out[..|out| - 1])|;
    assert forall j | base <= j < |s| :: s[j] == last[j - base];
    if |out| == 1 { assert out[..0] == []; }
  }

  /** Steps back over the last written segment, if there is one. */
  method Back(path: array<char>, src: nat, split: char, ghost out: seq<string>) returns (r: nat)
    requires src <= path.Length && path[..src] == Join(out)
    requires IsSep(split) && Segments(out, split)
    ensures r <= src && path[..r] == Join(if out == [] then [] else out[..|out| - 1])
  {
    r := src;
    if r > 0 {
      ghost var s := path[..src];
      ghost var base := LastSegment(s, out, split);
      r := r - 1;
      while r > 0 && path[r] != split
        invariant base <= r < src
      {
        assert path[r] == s[r];
        r := r - 1;
      }
      assert path[r] == s[r];
      assert path[..r] == s[..base];
    } else {
      EmptyJoin(out, split);
    }
  }

  lemma EmptyJoin(out: seq<string>, split: char)
    requires Segments(out, split) && Join(out) == []
    ensures out == []
  {
  }

  lemma JoinPush(out: seq<string>, lead: string, name: string)
    ensures Join(out + [lead + name]) == (Join(out) + lead) + name
  {
    assert (out + [lead + name])[..|out|] == out;
    assert (Join(out) + lead) + name == Join(out) + (lead + name);
  }

  /** Drops "." or "..", whose split character is already written. */
  method DropDots(path: array<char>, src: nat, dots: nat, split: char, ghost out: seq<string>, ghost lead: string)
    returns (src': nat)
    requires dots == 1 || dots == 2
    requires IsSep(split) && Segments(out, split)
    requires src <= path.Length && path[..src] == Join(out) + lead
    requires lead == [split] || (lead == [] && out == [])
    ensures src' <= src
    ensures path[..src'] == Join(Apply(out, lead, if dots == 1 then "." else ".."))
  {
    src' := src;
    if src' > 0 {
      src' := src' - 1;
      assert path[src'] == path[..src][src'];
      assert path[src'] == split;
      assert path[..src'] == path[..src][..src'] == Join(out);
    }
    if dots == 2 {
      src' := Back(path, src', split, out);
    }
  }

  /** Writes a component behind what is kept so far. */
  method Keep(path: array<char>, src: nat, hot: nat, len: nat, ghost before: string, ghost name: string)
    returns (src': nat)
    requires src <= hot && hot + len <= path.Length
    requires path[..src] == before && path[hot..hot + len] == name
    modifies path
    ensures src' == src + len && path[..src'] == before + name
    ensures path[hot + len..] == old(path[hot + len..])
  {
    if src != hot { CopyDown(path, src, hot, len); }
    src' := src + len;
    assert path[..src'] == path[..src] + path[src..src'];
  }

  /** 1 for ".", 2 for "..", otherwise 0. */
  method Dots(path: array<char>, hot: nat, p: nat) returns (dots: nat)
    requires hot < p <= path.Length
    ensures dots <= 2
    ensures dots == 1 <==> path[hot..p] == "."
    ensures dots == 2 <==> path[hot..p] == ".."
  {
    assert p - hot == 1 ==> path[hot..p] == [path[hot]];
    assert p - hot == 2 ==> path[hot..p] == [path[hot], path[hot + 1]];
    if path[hot] == '.' {
      if p - hot == 1 { return 1; }
      if p - hot == 2 && path[hot + 1] == '.' { return 2; }
    }
    return 0;
  }

  /** The component from hot to end is skipped, taken back or copied down. */
  method Settle(path: array<char>, src: nat, hot: nat, end: nat, split: char,
                ghost out: seq<string>, ghost lead: string, ghost name: string)
    returns (src': nat)
    requires src <= hot < end <= path.Length && name == path[hot..end]
    requires IsSep(split) && Segments(out, split) && path[..src] == Join(out) + lead
    requires lead == [split] || (lead == [] && out == [])
    modifies path
    ensures src' <= end && path[..src'] == Join(Apply(out, lead, name))
    ensures path[end..] == old(path[end..])
  {
    var dots := Dots(path, hot, end);
    if dots != 0 {
      src' := DropDots(path, src, dots, split, out, lead);
    } else {
      assert Apply(out, lead, name) == out + [lead + name];
      JoinPush(out, lead, name);
      src' := Keep(path, src, hot, end - hot, Join(out) + lead, name);
    }
  }

  /** One component, from hot on. */
  method Component(path: array<char>, src: nat, hot: nat, ghost n: nat, split: char,
                   ghost out: seq<string>, ghost lead: string, ghost name: string)
    returns (src': nat, hot': nat)
    requires src <= hot < n < path.Length && path[n] == '\0' && !IsSep(path[hot])
    requires '\0' !in path[hot..n]
    requires IsSep(split) && Segments(out, split) && path[..src] == Join(out) + lead
    requires lead == [split] || (lead == [] && out == [])
    requires name == Name(path[hot..n])
    modifies path
    ensures hot' == hot + |name| && hot < hot' <= n && src' <= hot'
    ensures path[..src'] == Join(Apply(out, lead, name))
    ensures path[n] == '\0' && path[hot'..n] == old(path[hot..n])[|name|..]
    ensures hot' < n ==> IsSep(path[hot'])
  {
    hot' := NameEnd(path, hot, n);
    ghost var whole := path[..];
    Slices(whole, hot, hot', n);
    src' := Settle(path, src, hot, hot', split, out, lead, name);
    assert path[..][hot'..] == path[hot'..] == whole[hot'..];
    Slices(path[..], hot', hot', n);
    assert path[n] == path[..][hot'..][n - hot'];
    assert hot' < n ==> path[hot'] == path[..][hot'..][0];
  }

  /** Where a slice lies does not matter. */
  lemma Slices(s: string, i: nat, j: nat, n: nat)
    requires i <= j <= n <= |s|
    ensures s[i..n][j - i..] == s[j..n] == s[j..][..n - j]
  {
  }

  lemma Inside(s: string, i: nat, j: nat, n: nat)
    requires i <= j <= n <= |s|
    ensures s[j..n] == s[i..][j - i..n - i]
  {
  }

  lemma ApplyKeepsSegments(out: seq<string>, lead: string, name: string, split: char)
    requires IsSep(split) && Segments(out, split) && name != [] && forall c <- name :: !IsSep(c)
    requires lead == [split] || (lead == [] && out == [])
    ensures Segments(Apply(out, lead, name), split)
  {
    if name != "." && name != ".." {
      assert forall j | 0 < j < |lead + name| :: (lead + name)[j] in name;
      assert lead == [] ==> (lead + name)[0] in name;
    }
  }

  /** A run of separators becomes one split character. */
  method Lead(path: array<char>, src: nat, hot: nat, ghost n: nat, split: char, ghost out: seq<string>)
    returns (src': nat, hot': nat)
    requires src <= hot < n < path.Length && path[n] == '\0' && path[..src] == Join(out)
    modifies path
    ensures src' <= hot' <= n && hot <= hot' && path[n] == '\0'
    ensures path[hot'..n] == SkipSeps(old(path[hot..n])) == old(path[hot..n])[hot' - hot..]
    ensures path[..src'] == Join(out) + if hot' > hot then [split] else []
    ensures (hot < hot' <==> IsSep(old(path[hot]))) && (hot' < n ==> !IsSep(path[hot']))
  {
    src', hot' := src, hot;
    if IsSep(path[hot]) {
      hot' := SkipRun(path, hot, n);
      Slices(path[..], hot, hot', n);
      assert path[hot'..n] == path[..][hot'..n] && path[hot..n] == path[..][hot..n];
      ghost var keep := path[hot'..n];
      ghost var was := path[..];
      Write(path, src, split, Join(out));
      assert path[..][src + 1..] == path[src + 1..] == was[src + 1..];
      Inside(was, src + 1, hot', n);
      Inside(path[..], src + 1, hot', n);
      assert path[hot'..n] == path[..][hot'..n] == keep;
      src' := src + 1;
    }
  }

  /** What a turn of the loop starts from: the segments written so far and the rest to read. */
  ghost predicate Reading(path: array<char>, src: nat, hot: nat, n: nat, split: char, out: seq<string>, rest: string)
    reads path
  {
    && src <= hot <= n < path.Length && path[n] == '\0'
    && path[..src] == Join(out) && Segments(out, split)
    && path[hot..n] == rest && '\0' !in rest
    && (hot == 0 || hot == n || IsSep(path[hot])) && (hot == 0 ==> out == [])
  }

  /** One turn: a run of separators, then a component, unless the path ends before it. */
  method Turn(path: array<char>, src: nat, hot: nat, ghost n: nat, split: char,
              ghost out: seq<string>, ghost rest: string)
    returns (src': nat, hot': nat, ghost out': seq<string>, ghost rest': string)
    requires IsSep(split) && Reading(path, src, hot, n, split, out, rest) && path[hot] != '\0'
    modifies path
    ensures src' <= hot' <= n && hot < hot' && path[n] == '\0'
    ensures
      || (path[hot'] == '\0' && path[..src'] == Walk(rest, out, split))
      || (Reading(path, src', hot', n, split, out', rest') && Walk(rest', out', split) == Walk(rest, out, split))
  {
    assert rest[0] == path[hot];
    src', hot' := Lead(path, src, hot, n, split, out);
    ghost var t := path[hot'..n];
    ghost var lead := if hot' > hot then [split] else [];
    if path[hot'] == '\0' {
      assert t == [];
      return src', hot', out, [];
    }
    assert t != [] && t[0] == path[hot'] && (hot' == hot ==> out == []);
    ghost var name := Name(t);
    NameIsClean(t);
    ApplyKeepsSegments(out, lead, name, split);
    WalkStep(rest, out, split);
    src', hot' := Component(path, src', hot', n, split, out, lead, name);
    out', rest' := Apply(out, lead, name), t[|name|..];
  }

  /** tripDir3: rewrites the C string in path, whose NUL is at n. */
  method TripDir(path: array<char>, ghost n: nat, split: char) returns (len: nat)
    requires n < path.Length && path[n] == '\0' && '\0' !in path[..n]
    requires IsSep(split)
    modifies path
    ensures len <= n && path[len] == '\0'
    ensures path[..len] == Normalize(old(path[..n]), split)
  {
    ghost var s := path[..n];
    var src: nat, hot: nat := 0, 0;
    ghost var out, rest: string := [], s;
    while path[hot] != '\0'
      invariant src <= hot <= n && path[n] == '\0'
      invariant
        || (path[hot] == '\0' && path[..src] == Normalize(s, split))
        || (Reading(path, src, hot, n, split, out, rest) && Walk(rest, out, split) == Normalize(s, split))
      decreases n - hot
    {
      src, hot, out, rest := Turn(path, src, hot, n, split, out, rest);
    }
    assert hot < n && path[hot..n] == rest ==> rest[0] == path[hot];
    assert path[..src] == Normalize(s, split);
    path[src] := '\0';
    return src;
  }

  /** The components of a path: its maximal runs without separators. */
  function Names(s: string): seq<string>
    decreases |s|
  {
    var t := SkipSeps(s);
    if t == [] then [] else [Name(t)] + Names(t[|Name(t)|..])
  }

  /** What a list of components means: each ".." cancels the component before it. */
  function Resolve(stack: seq<string>, names: seq<string>): seq<string>
    decreases |names|
  {
    if names == [] then stack else Resolve(Entered(stack, names[0]), names[1..])
  }

  /** The directory reached from another one by a component. */
  function Entered(stack: seq<string>, name: string): seq<string> {
    if name == "." then stack
    else if name != ".." then stack + [name]
    else if stack == [] then [] else stack[..|stack| - 1]
  }

  function Base(seg: string): string {
    if seg != [] && IsSep(seg[0]) then seg[1..] else seg
  }

  function Bases(out: seq<string>): seq<string> { seq(|out|, i requires 0 <= i < |out| => Base(out[i])) }

  predicate IsDots(name: string) { name == "." || name == ".." }

  ghost predicate Clean(out: seq<string>) { forall seg <- out :: !IsDots(Base(seg)) }

  ghost predicate Led(out: seq<string>, split: char) {
    forall seg <- out :: seg != [] && seg[0] == split
  }

  ghost predicate Boundary(s: string) { s == [] || IsSep(s[0]) }

  predicate EndsInSep(s: string) { s != [] && IsSep(s[|s| - 1]) }

  lemma StepKeepsEnd(s: string)
    requires SkipSeps(s) != []
    ensures EndsInSep(SkipSeps(s)[|Name(SkipSeps(s))|..]) == EndsInSep(s)
  {
    var t := SkipSeps(s);
    var name := Name(t);
    var k := SkipsSuffix(s);
    NamePrefix(t);
    NameIsClean(t);
    assert t[|t| - 1] == s[|s| - 1];
    if |name| == |t| {
      assert name[|name| - 1] in name;
    } else {
      assert t[|name|..][|t| - |name| - 1] == t[|t| - 1];
    }
  }

  /** What Walk yields: clean segments, then a separator if the path ended with one. */
  lemma {:induction false} WalkShape(s: string, acc: seq<string>, split: char)
    returns (out: seq<string>, tail: string)
    requires IsSep(split) && Segments(acc, split) && Clean(acc)
    requires acc == [] || Boundary(s)
    ensures Walk(s, acc, split) == Join(out) + tail && Segments(out, split) && Clean(out)
    ensures tail == if EndsInSep(s) then [split] else []
    ensures Bases(out) == Resolve(Bases(acc), Names(s))
    ensures Led(acc, split) && Boundary(s) ==> Led(out, split)
    decreases |s|
  {
    var k := SkipsSuffix(s);
    if k == |s| {
      out, tail := acc, if s == [] then [] else [split];
    } else {
      var next, rest := ShapeStep(s, acc, split, k);
      out, tail := WalkShape(rest, next, split);
    }
  }

  /** One component of a walk: the segments written and the rest of the path. */
  lemma ShapeStep(s: string, acc: seq<string>, split: char, k: nat) returns (next: seq<string>, rest: string)
    requires IsSep(split) && Segments(acc, split) && Clean(acc) && (acc == [] || Boundary(s))
    requires k < |s| && SkipSeps(s) == s[k..] && (k > 0 ==> IsSep(s[0]))
    ensures Walk(s, acc, split) == Walk(rest, next, split) && |rest| < |s|
    ensures Segments(next, split) && Clean(next) && Boundary(rest)
    ensures EndsInSep(rest) == EndsInSep(s)
    ensures Resolve(Bases(next), Names(rest)) == Resolve(Bases(acc), Names(s))
    ensures Led(acc, split) && Boundary(s) ==> Led(next, split)
  {
    var t := SkipSeps(s);
    var name := Name(t);
    var lead := if k > 0 then [split] else [];
    NameIsClean(t);
    NamePrefix(t);
    assert name != [] && name[0] in name;
    WalkStep(s, acc, split);
    StepKeepsEnd(s);
    ApplyKeepsSegments(acc, lead, name, split);
    BasesApply(acc, lead, name, split);
    next, rest := Apply(acc, lead, name), t[|name|..];
    NamesStep(s, name, rest);
  }

  lemma NamesStep(s: string, name: string, rest: string)
    requires var t := SkipSeps(s); t != [] && name == Name(t) && rest == t[|name|..]
    ensures Names(s) != [] && Names(s)[0] == name && Names(s)[1..] == Names(rest)
  {
  }

  /** Skipping separators cuts off k of them. */
  lemma {:induction false} SkipsSuffix(s: string) returns (k: nat)
    ensures k <= |s| && SkipSeps(s) == s[k..] && (k > 0 ==> IsSep(s[0]) && IsSep(s[k - 1]))
  {
    k := 0;
    if s != [] && IsSep(s[0]) {
      var n := SkipsSuffix(s[1..]);
      k := n + 1;
      assert s[1..][n..] == s[k..];
    } else {
      assert s[0..] == s;
    }
  }

  lemma {:induction false} NamePrefix(s: string)
    ensures Name(s) == s[..|Name(s)|] && Boundary(s[|Name(s)|..])
  {
    if s != [] && !IsSep(s[0]) {
      NamePrefix(s[1..]);
      assert s[1..][|Name(s[1..])|..] == s[|Name(s)|..];
    }
  }

  lemma BasesPush(acc: seq<string>, seg: string)
    requires Clean(acc) && !IsDots(Base(seg))
    ensures Bases(acc + [seg]) == Bases(acc) + [Base(seg)] && Clean(acc + [seg])
  {
    assert |Bases(acc + [seg])| == |acc| + 1;
  }

  lemma BasesPop(acc: seq<string>)
    requires Clean(acc) && acc != []
    ensures Bases(acc[..|acc| - 1]) == Bases(acc)[..|acc| - 1] && Clean(acc[..|acc| - 1])
  {
  }

  lemma BasesApply(acc: seq<string>, lead: string, name: string, split: char)
    requires IsSep(split) && name != [] && !IsSep(name[0]) && (lead == [] || lead == [split]) && Clean(acc)
    ensures Bases(Apply(acc, lead, name)) == Entered(Bases(acc), name)
    ensures Clean(Apply(acc, lead, name))
  {
    assert Base(lead + name) == name;
    if name == ".." {
      if acc != [] { BasesPop(acc); }
    } else if name != "." {
      BasesPush(acc, lead + name);
    }
  }

  /** A segment in front of a boundary is read back as one component. */
  lemma ReadSegment(seg: string, rest: string, split: char)
    requires IsSep(split) && seg != [] && Segments([seg], split) && Boundary(rest)
    ensures
      var t := SkipSeps(seg + rest);
      && t == Base(seg) + rest && Name(t) == Base(seg) && t[|Base(seg)|..] == rest
      && (|t| < |seg + rest| <==> IsSep(seg[0]))
  {
    var k := if IsSep([seg][0][0]) then 1 else 0;
    assert seg == [seg][0];
    SkipSepsIs(seg + rest, k);
    var t := SkipSeps(seg + rest);
    assert t == Base(seg) + rest;
    NameIs(t, |Base(seg)|);
  }

  lemma JoinCons(out: seq<string>)
    requires out != []
    ensures Join(out) == out[0] + Join(out[1..])
  {
    assert out == [out[0]] + out[1..];
    JoinAppend([out[0]], out[1..]);
    assert Join([out[0]]) == out[0];
  }

  lemma JoinFront(out: seq<string>, split: char)
    requires IsSep(split) && Segments(out, split) && out != []
    ensures Join(out) == out[0] + Join(out[1..])
    ensures Segments([out[0]], split) && Segments(out[1..], split) && Boundary(Join(out[1..]))
    ensures Led(out[1..], split)
  {
    var rest := out[1..];
    JoinCons(out);
    assert forall i | 0 <= i < |rest| :: rest[i] == out[i + 1];
    if rest != [] { JoinCons(rest); }
  }

  lemma NamesCons(seg: string, rest: string, split: char)
    requires IsSep(split) && seg != [] && Segments([seg], split) && Boundary(rest)
    ensures Names(seg + rest) == [Base(seg)] + Names(rest)
  {
    assert seg == [seg][0];
    ReadSegment(seg, rest, split);
    NamesStep(seg + rest, Base(seg), rest);
  }

  lemma BasesCons(out: seq<string>)
    requires out != []
    ensures Bases(out) == [Base(out[0])] + Bases(out[1..])
  {
  }

  /** A written path lists the bases of its segments. */
  lemma {:induction false} NamesOfJoin(out: seq<string>, tail: string, split: char)
    requires IsSep(split) && Segments(out, split) && (tail == [] || tail == [split])
    ensures Names(Join(out) + tail) == Bases(out)
  {
    if out == [] {
      assert Join(out) + tail == tail;
      SkipSepsIs(tail, |tail|);
    } else {
      JoinFront(out, split);
      var rest := Join(out[1..]) + tail;
      assert Join(out) + tail == out[0] + rest && Boundary(rest);
      NamesOfJoin(out[1..], tail, split);
      NamesCons(out[0], rest, split);
      BasesCons(out);
    }
  }

  lemma Regroup(acc: seq<string>, out: seq<string>)
    requires out != []
    ensures acc + [out[0]] + out[1..] == acc + out
  {
  }

  lemma WalkSegment(seg: string, rest: string, acc: seq<string>, split: char)
    requires IsSep(split) && seg != [] && Segments([seg], split) && Boundary(rest) && !IsDots(Base(seg))
    ensures Walk(seg + rest, acc, split) == Walk(rest, acc + [seg], split)
  {
    var lead := if IsSep(seg[0]) then [split] else [];
    assert seg == [seg][0] == lead + Base(seg);
    ReadSegment(seg, rest, split);
    WalkStep(seg + rest, acc, split);
  }

  /** Normalising a written path writes the same path. */
  lemma {:induction false} WalkJoin(out: seq<string>, tail: string, acc: seq<string>, split: char)
    requires IsSep(split) && Segments(out, split) && Clean(out) && (tail == [] || tail == [split])
    requires acc == [] || Led(out, split)
    ensures Walk(Join(out) + tail, acc, split) == Join(acc + out) + tail
    decreases |out|
  {
    if out == [] {
      assert Join(out) + tail == tail;
      assert acc + out == acc;
      SkipSepsIs(tail, |tail|);
    } else {
      JoinFront(out, split);
      var rest := Join(out[1..]) + tail;
      assert Join(out) + tail == out[0] + rest;
      WalkSegment(out[0], rest, acc, split);
      WalkJoin(out[1..], tail, acc + [out[0]], split);
      Regroup(acc, out);
    }
  }

  /** One split character between components and no other separator. */
  ghost predicate Canonical(r: string, split: char) {
    forall i | 0 <= i < |r| && IsSep(r[i]) :: r[i] == split && (i + 1 < |r| ==> !IsSep(r[i + 1]))
  }

  lemma {:induction false} JoinIsCanonical(out: seq<string>, tail: string, split: char)
    requires IsSep(split) && Segments(out, split) && (tail == [] || tail == [split])
    ensures Canonical(Join(out) + tail, split)
  {
    if out == [] {
      assert Join(out) + tail == tail;
    } else {
      JoinFront(out, split);
      var seg, rest := out[0], Join(out[1..]) + tail;
      assert seg == [seg][0];
      JoinIsCanonical(out[1..], tail, split);
      var r := Join(out) + tail;
      assert r == seg + rest;
      forall i | 0 <= i < |r| && IsSep(r[i])
        ensures r[i] == split && (i + 1 < |r| ==> !IsSep(r[i + 1]))
      {
        if i >= |seg| { assert r[i] == rest[i - |seg|]; }
      }
    }
  }

  /** What normalising promises for every path. */
  lemma NormalizeCorrect(s: string, split: char)
    requires IsSep(split)
    ensures
      var r := Normalize(s, split);
      && Names(r) == Resolve([], Names(s))
      && (forall name <- Names(r) :: !IsDots(name))
      && Canonical(r, split)
      && EndsInSep(r) == EndsInSep(s)
      && (r != [] && Boundary(s) ==> r[0] == split)
      && Normalize(r, split) == r
  {
    var out, tail := WalkShape(s, [], split);
    assert Bases([]) == [];
    WrittenIsNormal(out, tail, split);
    CleanBases(out);
    JoinEnd(out, tail, split);
  }

  lemma CleanBases(out: seq<string>)
    requires Clean(out)
    ensures forall name <- Bases(out) :: !IsDots(name)
  {
    assert forall i :: 0 <= i < |out| ==> Bases(out)[i] == Base(out[i]) && out[i] in out;
  }

  /** What a walk writes is canonical, and a second walk leaves it as it is. */
  lemma WrittenIsNormal(out: seq<string>, tail: string, split: char)
    requires IsSep(split) && Segments(out, split) && Clean(out) && (tail == [] || tail == [split])
    ensures var r := Join(out) + tail;
            Names(r) == Bases(out) && Canonical(r, split) && Normalize(r, split) == r
  {
    NamesOfJoin(out, tail, split);
    JoinIsCanonical(out, tail, split);
    WalkJoin(out, tail, [], split);
    assert [] + out == out;
  }

  lemma JoinEnd(out: seq<string>, tail: string, split: char)
    requires IsSep(split) && Segments(out, split) && (tail == [] || tail == [split])
    ensures EndsInSep(Join(out) + tail) <==> tail == [split]
    ensures Led(out, split) && Join(out) + tail != [] ==> (Join(out) + tail)[0] == split
  {
    var r := Join(out) + tail;
    if out == [] {
      assert r == tail;
    } else {
      JoinFront(out, split);
      assert r[0] == out[0][0];
      if tail == [] {
        var last := out[|out| - 1];
        assert r == Join(out) && r[|r| - 1] == last[|last| - 1];
      }
    }
  }

  /** The components of a path that is put in front of a separator come first. */
  lemma {:induction false} NamesConcat(p: string, s: string)
    requires Boundary(s)
    ensures Names(p + s) == Names(p) + Names(s)
    decreases |p|
  {
    if p == [] {
      assert p + s == s && Names(p) == [];
    } else if IsSep(p[0]) {
      NamesConcat(p[1..], s);
      assert (p + s)[1..] == p[1..] + s;
      NamesOfSep(p);
      NamesOfSep(p + s);
    } else {
      var name := Name(p);
      var rest := p[|name|..];
      NamePrefix(p);
      NameIsClean(p);
      NameOfFront(p, s);
      assert (p + s)[|name|..] == rest + s;
      NamesConcat(rest, s);
      Regrouped(name, Names(rest), Names(s));
    }
  }

  lemma Regrouped(name: string, a: seq<string>, b: seq<string>)
    ensures [name] + (a + b) == ([name] + a) + b
  {
  }

  lemma NamesOfSep(s: string)
    requires s != [] && IsSep(s[0])
    ensures Names(s) == Names(s[1..])
  {
    assert SkipSeps(s) == SkipSeps(s[1..]);
  }

  lemma NameOfFront(p: string, s: string)
    requires p != [] && !IsSep(p[0]) && Boundary(s)
    ensures Name(p + s) == Name(p)
  {
    var k := |Name(p)|;
    NamePrefix(p);
    NameIsClean(p);
    assert forall i | 0 <= i < k :: p[i] == Name(p)[i] && Name(p)[i] in Name(p);
    assert k < |p| ==> p[k..][0] == p[k];
    assert k == |p| && s != [] ==> (p + s)[k] == s[0];
    NameIs(p + s, k);
    assert (p + s)[..k] == Name(p);
  }

  lemma {:induction false} ResolveConcat(stack: seq<string>, a: seq<string>, b: seq<string>)
    ensures Resolve(stack, a + b) == Resolve(Resolve(stack, a), b)
    decreases |a|
  {
    if a == [] {
      assert a + b == b;
    } else {
      assert (a + b)[1..] == a[1..] + b;
      ResolveConcat(Entered(stack, a[0]), a[1..], b);
    }
  }

  /** One component behind a separator. */
  lemma NamesOfOne(n: string, s: string)
    requires n != [] && (forall c <- n :: !IsSep(c)) && Boundary(s)
    ensures Names("/" + n + s) == [n] + Names(s)
  {
    var t := n + s;
    assert "/" + n + s == "/" + t && ("/" + t)[1..] == t && n[0] in n;
    SkipSepsIs("/" + t, 1);
    assert forall i | 0 <= i < |n| :: t[i] == n[i] && n[i] in n;
    assert s != [] ==> t[|n|] == s[0];
    NameIs(t, |n|);
    assert t[..|n|] == n && t[|n|..] == s;
  }

  /** A component and the ".." behind it cancel out, wherever they stand. */
  lemma ParentCancels(p: string, n: string, s: string, split: char)
    requires IsSep(split) && Boundary(s) && n != [] && (forall c <- n :: !IsSep(c)) && !IsDots(n)
    ensures Names(Normalize(p + "/" + n + "/.." + s, split)) == Names(Normalize(p + s, split))
  {
    var path := p + "/" + n + "/.." + s;
    NamesWithParent(p, n, s);
    NamesConcat(p, s);
    ParentResolves([], Names(p), n, Names(s));
    NormalizeCorrect(path, split);
    NormalizeCorrect(p + s, split);
  }

  lemma NamesWithParent(p: string, n: string, s: string)
    requires Boundary(s) && n != [] && forall c <- n :: !IsSep(c)
    ensures Names(p + "/" + n + "/.." + s) == Names(p) + ([n, ".."] + Names(s))
  {
    var up := "/" + ".." + s;
    WithParent(p, n, s);
    NamesConcat(p, "/" + n + up);
    NamesOfPair(n, s);
  }

  lemma NamesOfPair(n: string, s: string)
    requires Boundary(s) && n != [] && forall c <- n :: !IsSep(c)
    ensures Names("/" + n + ("/" + ".." + s)) == [n, ".."] + Names(s)
  {
    NamesOfOne(n, "/" + ".." + s);
    NamesOfOne("..", s);
    assert [n] + ([".."] + Names(s)) == [n, ".."] + Names(s);
  }

  lemma WithParent(p: string, n: string, s: string)
    ensures p + "/" + n + "/.." + s == p + ("/" + n + ("/" + ".." + s))
  {
  }

  lemma ParentResolves(stack: seq<string>, a: seq<string>, n: string, b: seq<string>)
    requires !IsDots(n)
    ensures Resolve(stack, a + ([n, ".."] + b)) == Resolve(stack, a + b)
  {
    ResolveConcat(stack, a, [n, ".."] + b);
    ResolveConcat(stack, a, b);
    var there := Resolve(stack, a);
    ResolveConcat(there, [n, ".."], b);
    assert [n, ".."][1..] == [".."] && [".."][1..] == [];
    assert Entered(there, n) == there + [n] && Entered(there + [n], "..") == (there + [n])[..|there|] == there;
  }

  /** A "." vanishes, wherever it stands. */
  lemma DotVanishes(p: string, s: string, split: char)
    requires IsSep(split) && Boundary(s)
    ensures Names(Normalize(p + "/." + s, split)) == Names(Normalize(p + s, split))
  {
    assert p + "/." + s == p + ("/" + "." + s);
    NamesConcat(p, "/" + "." + s);
    NamesConcat(p, s);
    NamesOfOne(".", s);
    DotResolves([], Names(p), Names(s));
    NormalizeCorrect(p + "/." + s, split);
    NormalizeCorrect(p + s, split);
  }

  lemma DotResolves(stack: seq<string>, a: seq<string>, b: seq<string>)
    ensures Resolve(stack, a + (["."] + b)) == Resolve(stack, a + b)
  {
    ResolveConcat(stack, a, ["."] + b);
    ResolveConcat(stack, a, b);
    assert (["."] + b)[1..] == b;
  }

  /** A path without dot components keeps its components. */
  lemma PlainStays(s: string, split: char)
    requires IsSep(split) && forall name <- Names(s) :: !IsDots(name)
    ensures Names(Normalize(s, split)) == Names(s)
  {
    NormalizeCorrect(s, split);
    ResolvePlain([], Names(s));
    assert [] + Names(s) == Names(s);
  }

  lemma {:induction false} ResolvePlain(stack: seq<string>, names: seq<string>)
    requires forall name <- names :: !IsDots(name)
    ensures Resolve(stack, names) == stack + names
    decreases |names|
  {
    if names != [] {
      assert names[0] in names && forall name <- names[1..] :: name in names;
      ResolvePlain(stack + [names[0]], names[1..]);
      assert (stack + [names[0]]) + names[1..] == stack + names;
    }
  }

  /** ".." at the root has no effect. */
  lemma RootParent(s: string, split: char)
    requires Boundary(s)
    ensures Normalize("/.." + s, split) == Normalize(s, split)
  {
    SkipSepsIs("/.." + s, 1);
    assert ("/.." + s)[1..] == ".." + s;
    NameIs(".." + s, 2);
    assert (".." + s)[2..] == s;
    WalkStep("/.." + s, [], split);
  }
}
