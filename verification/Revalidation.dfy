/** Cache revalidation: how client and cache validators are merged into one conditional
    request, what a 304 then means, and when the client cannot tell the cache from the
    origin. */
module Revalidation {
  import opened Wire

  // ---------------------------------------------------------------- field values

  predicate IsSpace(c: char) {
    c == ' ' || '\t' <= c <= '\r'
  }

  function TrimLeft(s: string): string {
    if s != "" && IsSpace(s[0]) then TrimLeft(s[1..]) else s
  }

  function TrimRight(s: string): string {
    if s != "" && IsSpace(s[|s| - 1]) then TrimRight(s[..|s| - 1]) else s
  }

  function Trim(s: string): string {
    TrimRight(TrimLeft(s))
  }

  /** The index of the first comma, or the length. */
  function CommaAt(s: string): (k: nat)
    ensures k <= |s| && ',' !in s[..k] && (k < |s| ==> s[k] == ',')
  {
    if s == "" || s[0] == ',' then 0
    else
      var k := 1 + CommaAt(s[1..]);
      assert s[..k] == [s[0]] + s[1..][..k - 1];
      k
  }

  /** The members of a comma-separated field value. */
  function Fields(s: string): seq<string>
    decreases |s|
  {
    var k := CommaAt(s);
    [Trim(s[..k])] + if k < |s| then Fields(s[k + 1..]) else []
  }

  /** A member as it stands in a field value. */
  predicate Member(tag: string) {
    tag != "" && ',' !in tag && !IsSpace(tag[0]) && !IsSpace(tag[|tag| - 1])
  }

  lemma CommaAtIs(s: string, k: nat)
    requires k <= |s| && ',' !in s[..k] && (k < |s| ==> s[k] == ',')
    ensures CommaAt(s) == k
  {
    var c := CommaAt(s);
    assert forall i | 0 <= i < c :: s[i] == s[..c][i] != ',';
    assert forall i | 0 <= i < k :: s[i] == s[..k][i] != ',';
  }

  lemma MemberIsTrimmed(tag: string)
    requires Member(tag)
    ensures Trim(tag) == tag
  {
  }

  /** Prefixing a member and a comma adds one member in front. */
  lemma FieldsFront(tag: string, list: string)
    requires Member(tag)
    ensures Fields(tag + "," + list) == [tag] + Fields(list)
  {
    var s := tag + "," + list;
    assert s[..|tag|] == tag && s[|tag|] == ',' && s[|tag| + 1..] == list;
    CommaAtIs(s, |tag|);
    MemberIsTrimmed(tag);
  }

  /** White space around a member does not belong to it. */
  lemma FieldsPadded(left: string, tag: string, right: string, list: string)
    requires Member(tag) && Blank(left) && Blank(right)
    ensures Fields(left + tag + right + "," + list) == [tag] + Fields(list)
  {
    var all := left + tag + right;
    var s := all + "," + list;
    assert s[..|all|] == all && s[|all|] == ',' && s[|all| + 1..] == list;
    CommaAtIs(s, |all|);
    TrimPadded(left, tag, right);
  }

  /** Spaces, tabs, line feeds, vertical tabs, form feeds and carriage returns. */
  ghost predicate Blank(s: string) { forall c <- s :: c as int == 32 || 9 <= c as int <= 13 }

  lemma {:induction false} TrimPadded(left: string, tag: string, right: string)
    requires Member(tag) && Blank(left) && Blank(right)
    ensures Trim(left + tag + right) == tag
  {
    var all := left + tag + right;
    if left != [] {
      assert left[0] in left && all[0] == left[0];
      assert all[1..] == left[1..] + tag + right;
      assert forall c <- left[1..] :: c in left;
      TrimPadded(left[1..], tag, right);
    } else {
      assert all == tag + right && all[0] == tag[0];
      TrimRightPadded(tag, right);
    }
  }

  lemma {:induction false} TrimRightPadded(tag: string, right: string)
    requires Member(tag) && Blank(right)
    ensures TrimRight(tag + right) == tag
  {
    var all := tag + right;
    if right == [] {
      assert all == tag;
    } else {
      var front := right[..|right| - 1];
      assert right[|right| - 1] in right && all[|all| - 1] == right[|right| - 1];
      assert all[..|all| - 1] == tag + front && forall c <- front :: c in right;
      TrimRightPadded(tag, front);
    }
  }

  lemma FieldsSingle(tag: string)
    requires Member(tag)
    ensures Fields(tag) == [tag]
  {
    assert tag[..|tag|] == tag;
    CommaAtIs(tag, |tag|);
    MemberIsTrimmed(tag);
  }

  // ---------------------------------------------------------------- the client and the origin

  datatype Condition = Unconditional | NoneMatch(list: string) | ModifiedSince(time: int)

  datatype Validator = NoValidator | ETag(tag: string) | Time(time: int)

  /** A cached response: its validator, its Last-Modified header and its body. */
  datatype Cached = Cached(validator: Validator, lastModified: Option<int>, body: string)

  /** The selected representation at the origin. */
  datatype Origin = Origin(etag: Option<string>, lastModified: Option<int>, body: string)

  datatype Reply = Full(body: string) | NotModified

  /** Weak comparison ignores the W/ prefix. */
  function Opaque(tag: string): string {
    if |tag| >= 2 && tag[0] == 'W' && tag[1] == '/' then tag[2..] else tag
  }

  ghost predicate WeakMatch(members: seq<string>, tag: string) {
    exists i :: 0 <= i < |members| && (members[i] == "*" || (members[i] != "" && Opaque(members[i]) == Opaque(tag)))
  }

  /** The origin has a date, and it is not after t. */
  predicate Since(origin: Origin, t: int) {
    origin.lastModified.Some? && origin.lastModified.value <= t
  }

  /** The client sent "*". */
  predicate Star(c: Condition) {
    c.NoneMatch? && "*" in Fields(c.list)
  }

  /** Whether the client has the representation already, by section 13.2.2 of RFC 9110, for
      a GET. */
  ghost predicate Fresh(o: Origin, c: Condition) {
    match c
    case Unconditional => false
    case NoneMatch(list) => if o.etag.Some? then WeakMatch(Fields(list), o.etag.value) else "*" in Fields(list)
    case ModifiedSince(t) => Since(o, t)
  }

  /** An origin that obeys the section. */
  ghost function Answer(o: Origin, c: Condition): Reply {
    if Fresh(o, c) then NotModified else Full(o.body)
  }

  /** The validator that the origin sends with a 304. */
  function Echo(o: Origin): Validator {
    if o.etag.Some? then ETag(o.etag.value)
    else if o.lastModified.Some? && o.lastModified.value > 0 then Time(o.lastModified.value)
    else NoValidator
  }

  // ---------------------------------------------------------------- preconditions on a cached object

  /** A byte-equal member or "*" stands before any empty member. */
  ghost predicate ByteMatch(members: seq<string>, tag: string) {
    exists i :: 0 <= i < |members| && (members[i] == "*" || members[i] == tag)
                && forall j :: 0 <= j <= i ==> members[j] != ""
  }

  /** One round of the loop of precondition_entity. */
  lemma ByteMatchStep(members: seq<string>, tag: string)
    requires members != []
    ensures ByteMatch(members, tag) <==>
            members[0] != "" && (members[0] == "*" || members[0] == tag || ByteMatch(members[1..], tag))
  {
    var rest := members[1..];
    if i :| 0 <= i < |rest| && (rest[i] == "*" || rest[i] == tag) && forall j :: 0 <= j <= i ==> rest[j] != "" {
      if members[0] != "" {
        assert members[i + 1] == rest[i];
        assert forall j :: 0 < j <= i + 1 ==> members[j] == rest[j - 1];
      }
    }
    if i :| && 0 <= i < |members| && (members[i] == "*" || members[i] == tag)
            && forall j :: 0 <= j <= i ==> members[j] != "" {
      if i > 0 {
        assert rest[i - 1] == members[i];
        assert forall j :: 0 <= j <= i - 1 ==> rest[j] == members[j + 1];
      }
    }
  }

  /** The end of the field that starts at val. */
  method FieldEnd(list: string, val: nat) returns (end: nat)
    requires val <= |list|
    ensures end == val + CommaAt(list[val..])
  {
    end := val;
    while end < |list| && list[end] != ','
      invariant val <= end <= |list|
      invariant CommaAt(list[val..]) == end - val + CommaAt(list[end..])
    {
      assert list[end..][1..] == list[end + 1..];
      end := end + 1;
    }
  }

  method SkipSpaces(list: string, start: nat, end: nat) returns (val: nat)
    requires start <= end <= |list|
    ensures start <= val <= end
    ensures list[val..end] == TrimLeft(list[start..end])
    ensures val < end ==> !IsSpace(list[val])
  {
    val := start;
    while val < end && IsSpace(list[val])
      invariant start <= val <= end
      invariant TrimLeft(list[start..end]) == TrimLeft(list[val..end])
    {
      assert list[val..end][1..] == list[val + 1..end];
      val := val + 1;
    }
  }

  method StripEnd(list: string, val: nat, end: nat) returns (stripped: nat)
    requires val < end <= |list| && !IsSpace(list[val])
    ensures val < stripped <= end
    ensures list[val..stripped] == TrimRight(list[val..end])
  {
    stripped := end;
    while stripped - 1 > val && IsSpace(list[stripped - 1])
      invariant val < stripped <= end
      invariant TrimRight(list[val..end]) == TrimRight(list[val..stripped])
    {
      assert list[val..stripped][..stripped - val - 1] == list[val..stripped - 1];
      stripped := stripped - 1;
    }
    assert list[val..stripped][stripped - val - 1] == list[stripped - 1];
  }

  /** One field, trimmed, and where it ends. */
  method NextField(list: string, pos: nat) returns (field: string, end: nat)
    requires pos <= |list|
    ensures end == pos + CommaAt(list[pos..]) <= |list|
    ensures field == Trim(list[pos..end])
  {
    end := FieldEnd(list, pos);
    var val := SkipSpaces(list, pos, end);
    var stripped := val;
    if val < end { stripped := StripEnd(list, val, end); }
    field := list[val..stripped];
  }

  /** Whether the fields from pos on name the tag. */
  ghost predicate Named(list: string, pos: nat, tag: string)
    requires pos <= |list|
  {
    ByteMatch(Fields(list[pos..]), tag)
  }

  lemma NamedStep(list: string, pos: nat, end: nat, tag: string)
    requires pos <= |list| && end == pos + CommaAt(list[pos..])
    ensures var field := Trim(list[pos..end]);
            Named(list, pos, tag) <==>
            field != "" && (field == "*" || field == tag || (end < |list| && Named(list, end + 1, tag)))
  {
    var s := list[pos..];
    assert s[..end - pos] == list[pos..end];
    ByteMatchStep(Fields(s), tag);
    if end < |list| { assert s[end - pos + 1..] == list[end + 1..]; }
  }

  /** One round of the loop: decided, or on to the next field. */
  method Compare(list: string, pos: nat, tag: string) returns (done: bool, named: bool, next: nat)
    requires pos <= |list|
    ensures done ==> named == Named(list, pos, tag)
    ensures next <= |list|
    ensures !done ==> pos < next <= |list| && Named(list, pos, tag) == Named(list, next, tag)
  {
    var field, end := NextField(list, pos);
    NamedStep(list, pos, end, tag);
    if field == "" { return true, false, end; }
    if field == "*" || field == tag { return true, true, end; }
    if end == |list| { return true, false, end; }
    return false, false, end + 1;
  }

  /** False when the list names the object's tag. */
  method PreconditionEntity(v: Validator, list: string) returns (send: bool)
    ensures send == !(v.ETag? && ByteMatch(Fields(list), v.tag))
  {
    if !v.ETag? { return true; }
    var pos, done, named := 0, false, false;
    while !done
      invariant pos <= |list|
      invariant Named(list, 0, v.tag) == if done then named else Named(list, pos, v.tag)
      decreases !done, |list| - pos
    {
      done, named, pos := Compare(list, pos, v.tag);
    }
    assert list[0..] == list;
    return !named;
  }

  /** True when the object is newer than the client's copy. */
  predicate PreconditionTime(o: Cached, time: int) {
    match o.validator
    case Time(m) => m > time
    case _ => o.lastModified.None? || o.lastModified.value > time
  }

  /** The date of a cached object. */
  function DateOf(o: Cached): Option<int> {
    if o.validator.Time? then Some(o.validator.time) else o.lastModified
  }

  /** The date is known, and it is not after t. */
  predicate NotAfter(date: Option<int>, t: int) { date.Some? && date.value <= t }

  /** Whether the client needs the body of o. */
  ghost predicate NeedsBody(c: Condition, o: Cached) {
    match c
    case Unconditional => true
    case NoneMatch(list) => !(o.validator.ETag? && ByteMatch(Fields(list), o.validator.tag))
    case ModifiedSince(t) => !NotAfter(DateOf(o), t)
  }

  method RequestPrecondition(c: Condition, o: Cached) returns (send: bool)
    ensures send == NeedsBody(c, o)
  {
    match c {
      case Unconditional => send := true;
      case NoneMatch(list) => send := PreconditionEntity(o.validator, list);
      case ModifiedSince(t) => send := PreconditionTime(o, t);
    }
  }

  // ---------------------------------------------------------------- revalidation

  /** The condition that goes upstream. */
  function Merged(c: Condition, v: Validator): Condition {
    match v
    case Time(m) => ModifiedSince(if c.ModifiedSince? && c.time > m then c.time else m)
    case ETag(tag) => NoneMatch(if c.NoneMatch? then tag + "," + c.list else tag)
    case NoValidator => c
  }

  /** What the client gets when a stale cached object is revalidated. */
  ghost function ViaCache(c: Condition, o: Cached, origin: Origin): Reply {
    match Answer(origin, Merged(c, o.validator))
    case Full(body) => Full(body)
    case NotModified =>
      if Echo(origin) != NoValidator && Echo(origin) != o.validator then NotModified
      else if NeedsBody(c, o) then Full(o.body)
      else NotModified
  }

  /** The request state that load_object_from_source works on. */
  class Fiber {
    const condition: Condition
    const stale: Cached
    var sub: Condition
    var cacheHit: bool
    var verified: bool
    var oldDead: bool

    constructor (c: Condition, o: Cached)
      ensures condition == c && stale == o && cacheHit && !verified && !oldDead
    {
      condition, stale, sub := c, o, c;
      cacheHit, verified, oldDead := true, false, false;
    }

    method MergePrecondition()
      modifies this`sub
      ensures sub == Merged(condition, stale.validator)
    {
      match stale.validator {
        case Time(m) =>
          if condition.ModifiedSince? && condition.time > m {
            sub := condition;
          } else {
            sub := ModifiedSince(m);
          }
        case ETag(tag) =>
          if condition.NoneMatch? {
            sub := NoneMatch(tag + "," + condition.list);
          } else {
            sub := NoneMatch(tag);
          }
        case NoValidator => sub := condition;
      }
    }

    /** What is done with the upstream's 304 and its validator. */
    method HandleNotModified(validator: Validator) returns (reply: Reply)
      modifies this`cacheHit, this`verified, this`oldDead
      ensures var foreign := validator != NoValidator && validator != stale.validator;
              && reply == (if foreign || !NeedsBody(condition, stale) then NotModified else Full(stale.body))
              && verified == (old(verified) || (!foreign && NeedsBody(condition, stale)))
              && oldDead == (old(oldDead) || foreign)
              && cacheHit == (old(cacheHit) && !foreign)
    {
      if validator != NoValidator && validator != stale.validator {
        cacheHit, oldDead := false, true;
        return NotModified;
      }
      var send := RequestPrecondition(condition, stale);
      if !send { return NotModified; }
      verified := true;
      return Full(stale.body);
    }

    /** One revalidation; upstream is what the origin answers to the merged condition. */
    method LoadFromSource(ghost origin: Origin, upstream: Reply, validator: Validator) returns (reply: Reply)
      requires upstream == Answer(origin, Merged(condition, stale.validator)) && validator == Echo(origin)
      requires !verified
      modifies this
      ensures reply == ViaCache(condition, stale, origin)
      ensures verified ==> reply == Full(stale.body) && oldDead == old(oldDead)
    {
      MergePrecondition();
      if upstream.Full? { return upstream; }
      reply := HandleNotModified(validator);
    }
  }

  /** A cached tag is one member of a list and not the one that stands for any. */
  predicate Listable(o: Cached) {
    o.validator.ETag? ==> Member(o.validator.tag) && o.validator.tag != "*"
  }

  /** When revalidating an entity-tagged object is invisible to the client, if the origin
      has a tag ... */
  ghost predicate TagsDecide(c: Condition, o: Cached, origin: Origin)
    requires o.validator.ETag? && origin.etag.Some?
  {
    var tag, now := o.validator.tag, origin.etag.value;
    var same := Opaque(tag) == Opaque(now);
    match c
    case Unconditional => same ==> tag == now && o.body == origin.body
    case NoneMatch(list) =>
      if tag != now then same ==> WeakMatch(Fields(list), now)
      else if WeakMatch(Fields(list), tag) then ByteMatch(Fields(list), tag)
      else o.body == origin.body
    case ModifiedSince(t) =>
      if tag != now then same <==> Since(origin, t)
      else if NotAfter(o.lastModified, t) then NotAfter(origin.lastModified, t)
      else !NotAfter(origin.lastModified, t) && o.body == origin.body
  }

  /** ... and if it has none any more. */
  ghost predicate TagIsGone(c: Condition, tag: string, origin: Origin) {
    match c
    case Unconditional => true
    case NoneMatch(list) => Star(c) && Echo(origin).NoValidator? ==> ByteMatch(Fields(list), tag)
    case ModifiedSince(t) => !Since(origin, t)
  }

  lemma WeakMatchFront(tag: string, ms: seq<string>, now: string)
    requires tag != "" && tag != "*"
    ensures WeakMatch([tag] + ms, now) <==> Opaque(tag) == Opaque(now) || WeakMatch(ms, now)
  {
    var all := [tag] + ms;
    if Opaque(tag) == Opaque(now) { assert all[0] == tag; }
    if i :| 0 <= i < |ms| && (ms[i] == "*" || (ms[i] != "" && Opaque(ms[i]) == Opaque(now))) {
      assert all[i + 1] == ms[i];
    }
    if i :| 0 <= i < |all| && (all[i] == "*" || (all[i] != "" && Opaque(all[i]) == Opaque(now))) {
      assert i > 0 ==> all[i] == ms[i - 1];
    }
  }

  /** What the merged list matches at the origin. */
  lemma MergedMatch(c: Condition, tag: string, origin: Origin)
    requires Member(tag) && tag != "*"
    ensures Fresh(origin, Merged(c, ETag(tag))) <==>
            if origin.etag.None? then Star(c)
            else Opaque(tag) == Opaque(origin.etag.value) || (c.NoneMatch? && Fresh(origin, c))
  {
    var ms := if c.NoneMatch? then Fields(c.list) else [];
    FieldsSingle(tag);
    assert [tag] + [] == [tag];
    if c.NoneMatch? { FieldsFront(tag, c.list); }
    assert Fields(Merged(c, ETag(tag)).list) == [tag] + ms;
    if origin.etag.Some? {
      WeakMatchFront(tag, ms, origin.etag.value);
      assert !c.NoneMatch? ==> !WeakMatch(ms, origin.etag.value);
    }
  }

  lemma ByteMatchIsWeak(ms: seq<string>, tag: string)
    requires ByteMatch(ms, tag)
    ensures WeakMatch(ms, tag)
  {
    var i :| 0 <= i < |ms| && (ms[i] == "*" || ms[i] == tag) && forall j :: 0 <= j <= i ==> ms[j] != "";
    assert ms[i] != "";
  }

  /** The cache is transparent for an entity-tagged object exactly when byte and weak
      comparison decide alike, and both dates for an If-Modified-Since. */
  lemma EntityTagTransparency(c: Condition, o: Cached, origin: Origin)
    requires o.validator.ETag? && origin.etag.Some? && Listable(o)
    ensures ViaCache(c, o, origin) == Answer(origin, c) <==> TagsDecide(c, o, origin)
  {
    var tag := o.validator.tag;
    MergedMatch(c, tag, origin);
    if c.NoneMatch? && ByteMatch(Fields(c.list), tag) { ByteMatchIsWeak(Fields(c.list), tag); }
  }

  predicate Strong(tag: string) {
    Opaque(tag) == tag
  }

  /** With strong tags, which name one body each, and no empty list member the cache is transparent to every
      request but an If-Modified-Since: that one needs the dates of both sides to decide
      alike while the tag is the same, and the changed representation to be newer. */
  lemma StrongTagsAreTransparent(c: Condition, o: Cached, origin: Origin)
    requires o.validator.ETag? && origin.etag.Some? && Listable(o)
    requires Strong(o.validator.tag) && Strong(origin.etag.value)
    requires o.validator.tag == origin.etag.value ==> o.body == origin.body
    requires c.NoneMatch? ==> forall m <- Fields(c.list) :: m != "" && Strong(m)
    ensures ViaCache(c, o, origin) == Answer(origin, c) <==>
            (c.ModifiedSince? ==>
               if o.validator.tag == origin.etag.value
               then NotAfter(o.lastModified, c.time) <==> NotAfter(origin.lastModified, c.time)
               else !Since(origin, c.time))
  {
    EntityTagTransparency(c, o, origin);
    if c.NoneMatch? && WeakMatch(Fields(c.list), o.validator.tag) {
      var ms, tag := Fields(c.list), o.validator.tag;
      var i :| 0 <= i < |ms| && (ms[i] == "*" || (ms[i] != "" && Opaque(ms[i]) == Opaque(tag)));
      assert ms[i] in ms;
      assert ms[i] == "*" || ms[i] == tag;
      assert forall j :: 0 <= j <= i ==> ms[j] in ms;
    }
  }

  /** While tag, body and date are the same on both sides, a client that sends any date sees
      what a direct request would show. */
  lemma SameDateIsTransparent(o: Cached, origin: Origin, t: int)
    requires o.validator.ETag? && Listable(o) && origin.etag == Some(o.validator.tag)
    requires o.body == origin.body && o.lastModified == origin.lastModified
    ensures ViaCache(ModifiedSince(t), o, origin) == Answer(origin, ModifiedSince(t))
  {
    EntityTagTransparency(ModifiedSince(t), o, origin);
  }

  /** In particular one that repeats the date it was given gets a 304, and one with an older
      date gets the body. */
  lemma RepeatedDate(tag: string, body: string, m: int, t: int)
    requires Member(tag) && tag != "*"
    ensures var o, origin := Cached(ETag(tag), Some(m), body), Origin(Some(tag), Some(m), body);
            ViaCache(ModifiedSince(t), o, origin) == if t >= m then NotModified else Full(body)
  {
    SameDateIsTransparent(Cached(ETag(tag), Some(m), body), Origin(Some(tag), Some(m), body), t);
  }

  /** A client that holds the weak form of the current strong tag gets the body again, and
      an unconditional client gets a 304 when the cached tag is the weak form. */
  lemma WeakTagsAreNot()
    ensures var o, origin := Cached(ETag("\"x\""), None, "b"), Origin(Some("\"x\""), None, "b");
            && ViaCache(NoneMatch("W/\"x\""), o, origin) == Full("b")
            && Answer(origin, NoneMatch("W/\"x\"")) == NotModified
    ensures var o, origin := Cached(ETag("W/\"x\""), None, "a"), Origin(Some("\"x\""), None, "b");
            ViaCache(Unconditional, o, origin) == NotModified && Answer(origin, Unconditional) == Full("b")
  {
    var strong, weak := "\"x\"", "W/\"x\"";
    assert Opaque(weak) == strong && Opaque(strong) == strong;
    FieldsSingle(weak);
    assert !ByteMatch([weak], strong);
    assert WeakMatch([weak], strong) by { assert [weak][0] == weak; }
    EntityTagTransparency(NoneMatch(weak), Cached(ETag(strong), None, "b"), Origin(Some(strong), None, "b"));
    EntityTagTransparency(Unconditional, Cached(ETag(weak), None, "a"), Origin(Some(strong), None, "b"));
  }

  /** If-Modified-Since decides by the date at the origin and by the tag at the cache. */
  lemma TagsAreNotDates()
    ensures var o, origin := Cached(ETag("\"a\""), Some(1), "old"), Origin(Some("\"b\""), Some(3), "new");
            ViaCache(ModifiedSince(5), o, origin) == Full("new") && Answer(origin, ModifiedSince(5)) == NotModified
  {
    var o, origin := Cached(ETag("\"a\""), Some(1), "old"), Origin(Some("\"b\""), Some(3), "new");
    assert Strong("\"a\"") && Strong("\"b\"");
    StrongTagsAreTransparent(ModifiedSince(5), o, origin);
  }

  /** Under one tag the dates may differ: the cache has dropped the date of the epoch, or the
      origin has a newer one for the same content. */
  lemma DatesUnderOneTag()
    ensures var o, origin := Cached(ETag("\"x\""), None, "b"), Origin(Some("\"x\""), Some(0), "b");
            ViaCache(ModifiedSince(5), o, origin) == Full("b") && Answer(origin, ModifiedSince(5)) == NotModified
    ensures var o, origin := Cached(ETag("\"x\""), Some(3), "b"), Origin(Some("\"x\""), Some(9), "b");
            ViaCache(ModifiedSince(5), o, origin) == NotModified && Answer(origin, ModifiedSince(5)) == Full("b")
  {
    var tag := "\"x\"";
    assert Strong(tag);
    MergedMatch(ModifiedSince(5), tag, Origin(Some(tag), Some(0), "b"));
    MergedMatch(ModifiedSince(5), tag, Origin(Some(tag), Some(9), "b"));
  }

  /** An empty list member ends the cache's search and not the origin's, whatever the tag. */
  lemma EmptyMemberEndsSearch(x: string, body: string)
    requires Member(x) && x != "*"
    ensures var c, o, origin := NoneMatch("," + x), Cached(ETag(x), None, body), Origin(Some(x), None, body);
            ViaCache(c, o, origin) == Full(body) && Answer(origin, c) == NotModified
  {
    var ms := [""] + [x];
    EmptyFront(x);
    FieldsSingle(x);
    ByteMatchStep(ms, x);
    assert WeakMatch(ms, x) by { assert ms[1] == x; }
    MergedMatch(NoneMatch("," + x), x, Origin(Some(x), None, body));
  }

  lemma EmptyFront(list: string)
    ensures Fields("," + list) == [""] + Fields(list)
  {
    var s := "," + list;
    CommaAtIs(s, 0);
    assert s[..0] == "" && s[1..] == list;
  }

  /** When revalidating a dated object is invisible to the client, if the origin has no tag ... */
  ghost predicate DatesDecide(c: Condition, o: Cached, origin: Origin)
    requires o.validator.Time?
  {
    var m := o.validator.time;
    if Since(origin, m) && origin.lastModified.value < m && !Echo(origin).NoValidator? then
      Star(c) || (c.ModifiedSince? && Since(origin, c.time))
    else if Since(origin, m) && (c.ModifiedSince? ==> c.time < m) then
      !Star(c) && !(c.ModifiedSince? && Since(origin, c.time)) && o.body == origin.body
    else !Star(c)
  }

  /** ... and if it has one by now. */
  ghost predicate TagIsNew(c: Condition, m: int, origin: Origin)
    requires origin.etag.Some?
  {
    match c
    case Unconditional => !Since(origin, m)
    case NoneMatch(list) => Since(origin, m) <==> WeakMatch(Fields(list), origin.etag.value)
    case ModifiedSince(t) => Since(origin, m) ==> Since(origin, t)
  }

  /** The cache is transparent for a dated object exactly when the origin's date decides
      alike for the cached date and for the client's condition. */
  lemma TimeTransparency(c: Condition, o: Cached, origin: Origin)
    requires o.validator.Time?
    ensures ViaCache(c, o, origin) == Answer(origin, c) <==>
            if origin.etag.Some? then TagIsNew(c, o.validator.time, origin) else DatesDecide(c, o, origin)
  {
    var m := o.validator.time;
    if Since(origin, m) && origin.lastModified.value == m { assert origin.lastModified == Some(m); }
  }

  /** A client that sent "*" gets the body again; an unconditional one gets a 304 when the
      origin's date went back, or when the origin has begun to send a tag. */
  lemma DatesAreNotTransparent()
    ensures var o, origin := Cached(Time(100), None, "b"), Origin(None, Some(100), "b");
            ViaCache(NoneMatch("*"), o, origin) == Full("b") && Answer(origin, NoneMatch("*")) == NotModified
    ensures var o, origin := Cached(Time(100), None, "old"), Origin(None, Some(50), "new");
            ViaCache(Unconditional, o, origin) == NotModified && Answer(origin, Unconditional) == Full("new")
    ensures var o, origin := Cached(Time(100), None, "b"), Origin(Some("\"x\""), Some(100), "b");
            ViaCache(Unconditional, o, origin) == NotModified && Answer(origin, Unconditional) == Full("b")
  {
    FieldsSingle("*");
  }

  /** When revalidating is invisible to the client, by what both sides have. */
  ghost predicate Invisible(c: Condition, o: Cached, origin: Origin) {
    match o.validator
    case ETag(tag) => if origin.etag.Some? then TagsDecide(c, o, origin) else TagIsGone(c, tag, origin)
    case Time(m) => if origin.etag.Some? then TagIsNew(c, m, origin) else DatesDecide(c, o, origin)
    case NoValidator => !Blind(c, o, origin)
  }

  /** For every client, every cached object and every origin: the client sees what a direct
      request would show exactly when the validators and dates of both sides decide so. */
  lemma Transparency(c: Condition, o: Cached, origin: Origin)
    requires Listable(o)
    ensures ViaCache(c, o, origin) == Answer(origin, c) <==> Invisible(c, o, origin)
  {
    match o.validator
    case ETag(tag) =>
      if origin.etag.Some? { EntityTagTransparency(c, o, origin); } else { MergedMatch(c, tag, origin); }
    case Time(m) => TimeTransparency(c, o, origin);
    case NoValidator =>
  }

  /** The origin's 304 carries no validator that could show the cached object to be outdated,
      and the client needs a body. */
  ghost predicate Blind(c: Condition, o: Cached, origin: Origin) {
    && Echo(origin).NoValidator? && NeedsBody(c, o)
    && match o.validator
       case Time(m) => Since(origin, m) || (c.ModifiedSince? && Since(origin, c.time))
       case ETag(_) => Star(c)
       case NoValidator => Star(c) || (c.ModifiedSince? && Since(origin, c.time))
  }

  /** The origin uses the cached validator, and the client needs a body. */
  ghost predicate Twin(c: Condition, o: Cached, origin: Origin) {
    Echo(origin) == o.validator && !o.validator.NoValidator? && NeedsBody(c, o)
  }

  /** A body that is not the origin's is served exactly against a blind 304 or one that uses
      the cached validator for another body. */
  lemma NeverStale(c: Condition, o: Cached, origin: Origin)
    requires Listable(o)
    ensures (ViaCache(c, o, origin).Full? ==> ViaCache(c, o, origin).body == origin.body) <==>
            !(Blind(c, o, origin) || Twin(c, o, origin)) || o.body == origin.body
  {
    if o.validator.ETag? { MergedMatch(c, o.validator.tag, origin); }
  }

  /** Such requests: one for "*", and two against an origin whose date is the epoch, which is
      dropped where it is read. */
  lemma BlindServesStale()
    ensures ViaCache(NoneMatch("*"), Cached(NoValidator, None, "old"), Origin(None, None, "new")) == Full("old")
    ensures ViaCache(Unconditional, Cached(Time(100), Some(100), "old"), Origin(None, Some(0), "new")) == Full("old")
    ensures ViaCache(ModifiedSince(5), Cached(NoValidator, None, "old"), Origin(None, Some(0), "new")) == Full("old")
  {
    FieldsSingle("*");
  }

  /** An origin that changes a file twice in a second gives one date to two bodies. */
  lemma TwinServesStale()
    ensures ViaCache(Unconditional, Cached(Time(100), Some(100), "old"), Origin(None, Some(100), "new")) == Full("old")
  {
  }
}
