/** The response side of a child API service: whatever an extension calls, and in whatever
    order, it sends header lines, an empty line and then the body. Two things can go wrong
    with that, and the calls decide which do: header text behind the empty line is read as
    body, and an empty record ends the stream for the parent. */
module ChildService {
  import opened Wire

  ghost predicate LineStart(t: string, s: int) {
    0 <= s <= |t| && (s == 0 || t[s - 1] == '\n')
  }

  /** The line from s to its end at i holds nothing but carriage returns. */
  ghost predicate EmptyLine(t: string, s: int, i: int) {
    LineStart(t, s) && s <= i < |t| && t[i] == '\n' && forall j | s <= j < i :: t[j] == '\r'
  }

  ghost predicate HasEmptyLine(t: string) {
    exists s, i :: EmptyLine(t, s, i)
  }

  /** Position j of the unfinished last line holds something. */
  ghost predicate DataAt(t: string, j: int) {
    0 <= j < |t| && t[j] != '\r' && forall k | j <= k < |t| :: t[k] != '\n'
  }

  ghost predicate LineHasData(t: string) {
    exists j :: DataAt(t, j)
  }

  lemma EmptyLineKept(t: string, u: string)
    requires HasEmptyLine(t)
    ensures HasEmptyLine(t + u)
  {
    var s, i :| EmptyLine(t, s, i);
    assert EmptyLine(t + u, s, i);
  }

  /** How one more character decides both. */
  lemma NextChar(t: string, c: char)
    ensures HasEmptyLine(t + [c]) <==> HasEmptyLine(t) || (c == '\n' && !LineHasData(t))
    ensures LineHasData(t + [c]) <==> c != '\n' && (c != '\r' || LineHasData(t))
  {
    var u := t + [c];
    assert u[|t|] == c && forall k | 0 <= k < |t| :: u[k] == t[k];
    if HasEmptyLine(t) { EmptyLineKept(t, [c]); }
    if c == '\n' && !LineHasData(t) {
      var s := LastLine(t);
      forall j | s <= j < |t| ensures t[j] == '\r' { assert !DataAt(t, j); }
      assert EmptyLine(u, s, |t|);
    }
    if s, i :| EmptyLine(u, s, i) {
      if i < |t| {
        assert EmptyLine(t, s, i);
      } else if j :| DataAt(t, j) {
        assert false;
      }
    }
    if j :| DataAt(t, j) { assert c != '\n' ==> DataAt(u, j); }
    if c != '\n' && c != '\r' { assert DataAt(u, |t|); }
    if j :| DataAt(u, j) { assert j < |t| ==> DataAt(t, j); }
  }

  lemma NoLines()
    ensures !HasEmptyLine("") && !LineHasData("")
  {
  }

  /** Where the last line starts. */
  ghost function LastLine(t: string): (s: nat)
    ensures LineStart(t, s) && forall k | s <= k < |t| :: t[k] != '\n'
  {
    if t == [] || t[|t| - 1] == '\n' then |t| else LastLine(t[..|t| - 1])
  }

  /** The first empty line of t ends t. */
  ghost predicate EndsHeader(t: string) {
    HasEmptyLine(t) && !HasEmptyLine(t[..|t| - 1])
  }

  /** Where the first empty line ends is one place. */
  lemma HeaderEndsOnce(a: string, b: string, t: string)
    requires EndsHeader(a) && EndsHeader(b) && a <= t && b <= t
    ensures a == b
  {
    if |a| < |b| { EarlierEnd(a, b); }
    if |b| < |a| { EarlierEnd(b, a); }
  }

  lemma EarlierEnd(a: string, b: string)
    requires HasEmptyLine(a) && a < b
    ensures !EndsHeader(b)
  {
    var rest := b[..|b| - 1][|a|..];
    assert b[..|b| - 1] == a + rest;
    EmptyLineKept(a, rest);
  }

  /** Where the header ends for a reader of t: behind its first empty line. */
  ghost function HeaderEnd(t: string): (n: nat)
    requires HasEmptyLine(t)
    ensures n <= |t| && EndsHeader(t[..n])
  {
    assert t != [];
    var front := t[..|t| - 1];
    assert t[..|t|] == t;
    if HasEmptyLine(front) then (assert forall n | 0 <= n <= |front| :: front[..n] == t[..n]; HeaderEnd(front)) else |t|
  }

  /** What a reader of t takes for the body. */
  ghost function BehindHeader(t: string): string
    requires HasEmptyLine(t)
  {
    t[HeaderEnd(t)..]
  }

  lemma HeaderEndIs(t: string, n: nat)
    requires n <= |t| && EndsHeader(t[..n])
    ensures HasEmptyLine(t) && HeaderEnd(t) == n
  {
    assert t == t[..n] + t[n..];
    EmptyLineKept(t[..n], t[n..]);
    HeaderEndsOnce(t[..n], t[..HeaderEnd(t)], t);
  }

  lemma BehindAppend(head: string, body: string)
    requires HasEmptyLine(head)
    ensures HasEmptyLine(head + body) && BehindHeader(head + body) == BehindHeader(head) + body
  {
    var n := HeaderEnd(head);
    assert (head + body)[..n] == head[..n];
    HeaderEndIs(head + body, n);
  }

  /** Complete lines, or none. */
  ghost predicate WholeLines(t: string) { t == [] || t[|t| - 1] == '\n' }

  lemma LinesJoin(a: string, b: string)
    requires WholeLines(a)
    ensures HasEmptyLine(a + b) <==> HasEmptyLine(a) || HasEmptyLine(b)
  {
    if HasEmptyLine(a) { EmptyLineKept(a, b); }
    if s, i :| EmptyLine(b, s, i) { Shifted(a, b, s, i); }
    if s, i :| EmptyLine(a + b, s, i) { InOne(a, b, s, i); }
  }

  lemma Shifted(a: string, b: string, s: int, i: int)
    requires WholeLines(a) && EmptyLine(b, s, i)
    ensures EmptyLine(a + b, |a| + s, |a| + i)
  {
    var t := a + b;
    forall j | |a| + s <= j < |a| + i ensures t[j] == '\r' { assert t[j] == b[j - |a|]; }
    assert s > 0 ==> t[|a| + s - 1] == b[s - 1];
  }

  lemma InOne(a: string, b: string, s: int, i: int)
    requires WholeLines(a) && EmptyLine(a + b, s, i)
    ensures EmptyLine(a, s, i) || EmptyLine(b, s - |a|, i - |a|)
  {
    var t := a + b;
    if i < |a| {
      forall j | s <= j < i ensures a[j] == '\r' { assert t[j] == a[j]; }
    } else {
      assert a != [] ==> t[|a| - 1] == a[|a| - 1];
      forall j | s - |a| <= j < i - |a| && 0 <= j ensures b[j] == '\r' { assert t[|a| + j] == b[j]; }
    }
  }

  /** Behind whole lines without an empty one the header ends where it would end alone. */
  lemma BehindLines(a: string, b: string)
    requires WholeLines(a) && !HasEmptyLine(a) && HasEmptyLine(b)
    ensures HasEmptyLine(a + b) && BehindHeader(a + b) == BehindHeader(b)
  {
    var n := HeaderEnd(b);
    LinesEnd(a, b[..n]);
    assert (a + b)[..|a| + n] == a + b[..n];
    HeaderEndIs(a + b, |a| + n);
    assert (a + b)[|a| + n..] == b[n..];
  }

  lemma LinesEnd(a: string, b: string)
    requires WholeLines(a) && !HasEmptyLine(a) && EndsHeader(b)
    ensures EndsHeader(a + b)
  {
    LinesJoin(a, b);
    LinesJoin(a, b[..|b| - 1]);
    assert (a + b)[..|a + b| - 1] == a + b[..|b| - 1];
  }

  // ---------------------------------------------------------------- what the calls send

  datatype Call = Status(s: string) | Header(s: string) | Write(s: string)

  const DEFAULT_ERROR := "Status: " + "500 Server Error" + "\r\n\r\n"
  const DEFAULT_OK := "Status: " + "200" + "\r\n\r\n"

  ghost predicate NoWrite(calls: seq<Call>) { forall c <- calls :: !c.Write? }

  /** The header texts that are sent: those before the first write, up to the one that
      completes an empty line. */
  ghost function Lines(calls: seq<Call>): string {
    if calls == [] then []
    else
      var front, last := calls[..|calls| - 1], calls[|calls| - 1];
      Lines(front) + if last.Header? && NoWrite(front) && !HasEmptyLine(Lines(front)) then last.s else []
  }

  ghost predicate Open(calls: seq<Call>) { NoWrite(calls) && !HasEmptyLine(Lines(calls)) }

  function StatusLine(status: string): string { "Status: " + status + "\r\n" }

  /** Only the first call can set the status. */
  function StatusOf(calls: seq<Call>): string {
    if calls != [] && calls[0].Status? then StatusLine(calls[0].s) else []
  }

  /** What close_header sends behind those lines. */
  ghost function Closing(lines: string): string {
    if HasEmptyLine(lines) then [] else if LineHasData(lines) then "\r\n\r\n" else "\r\n"
  }

  /** The header text that the calls have sent so far ... */
  ghost function HeadSoFar(calls: seq<Call>): string {
    if calls == [] then []
    else if calls[0].Write? then DEFAULT_ERROR
    else StatusOf(calls) + (Lines(calls) + if NoWrite(calls) then [] else Closing(Lines(calls)))
  }

  /** ... and at the end of the request. */
  ghost function Head(calls: seq<Call>): string {
    if calls == [] then DEFAULT_OK
    else if calls[0].Write? then DEFAULT_ERROR
    else StatusOf(calls) + (Lines(calls) + Closing(Lines(calls)))
  }

  ghost function Written(calls: seq<Call>): string {
    if calls == [] then []
    else Written(calls[..|calls| - 1]) + if calls[|calls| - 1].Write? then calls[|calls| - 1].s else []
  }

  ghost predicate EndsWithIt(before: string, s: string) {
    s == [] || !HasEmptyLine(before + s[..|s| - 1])
  }

  /** No header text that is sent reaches an empty line before its last character. */
  ghost predicate Tidy(calls: seq<Call>) {
    calls == [] ||
    var front, last := calls[..|calls| - 1], calls[|calls| - 1];
    Tidy(front) && (last.Header? && Open(front) ==> EndsWithIt(Lines(front), last.s))
  }

  /** Nothing but the body is sent behind the first empty line. */
  ghost predicate Neat(calls: seq<Call>) { !HasEmptyLine(StatusOf(calls)) && Tidy(calls) }

  /** The text of a call after those is not empty where something must still follow it, and
      is not cut off. */
  ghost predicate Heard(calls: seq<Call>, c: Call) {
    match c
    case Status(s) => calls == [] ==> s != []
    case Header(s) => Open(calls) ==> s != []
    case Write(s) => Write("") in calls ==> s == []
  }

  /** No text that is sent is empty, except that of writes that only empty ones follow. */
  ghost predicate Lossless(calls: seq<Call>) {
    calls == [] ||
    var front, last := calls[..|calls| - 1], calls[|calls| - 1];
    Lossless(front) && Heard(front, last)
  }

  /** One more call. */
  lemma Push(calls: seq<Call>, c: Call)
    ensures var more := calls + [c];
            && Lines(more) == Lines(calls) + (if c.Header? && Open(calls) then c.s else [])
            && (NoWrite(more) <==> NoWrite(calls) && !c.Write?)
            && Written(more) == Written(calls) + (if c.Write? then c.s else [])
            && (Lossless(more) <==> Lossless(calls) && Heard(calls, c))
  {
    var more := calls + [c];
    assert more[..|calls|] == calls;
    assert c in more && forall x <- calls :: x in more;
  }

  lemma {:induction false} NothingWritten(calls: seq<Call>)
    requires NoWrite(calls)
    ensures Written(calls) == []
  {
    if calls != [] {
      NothingWritten(calls[..|calls| - 1]);
      assert calls[|calls| - 1] in calls;
    }
  }

  lemma {:induction false} WriteFirst(calls: seq<Call>)
    requires calls != [] && calls[0].Write?
    ensures Lines(calls) == [] && !NoWrite(calls)
  {
    assert calls[0] in calls;
    var front := calls[..|calls| - 1];
    if front != [] { WriteFirst(front); }
  }

  lemma NoMoreCalls(calls: seq<Call>)
    ensures calls + [] == calls
  {
  }

  lemma OneByOne(made: seq<Call>, calls: seq<Call>)
    requires calls != []
    ensures (made + [calls[0]]) + calls[1..] == made + calls
  {
  }

  lemma NoMore(t: string)
    ensures t + [] == t
  {
  }

  lemma PushStatus(calls: seq<Call>, s: string)
    ensures var more := calls + [Status(s)];
            && HeadSoFar(more) == (if calls == [] then StatusLine(s) else HeadSoFar(calls))
            && Lines(more) == Lines(calls) && Written(more) == Written(calls) && (Open(more) <==> Open(calls))
            && (Lossless(more) <==> Lossless(calls) && (calls == [] ==> s != []))
            && (Write("") in more <==> Write("") in calls)
  {
    Push(calls, Status(s));
    NoMore(Lines(calls));
    NoMore(Written(calls));
    NoMore(StatusLine(s));
  }

  lemma PushHeader(calls: seq<Call>, s: string)
    ensures var more := calls + [Header(s)];
            && HeadSoFar(more) == HeadSoFar(calls) + (if Open(calls) then s else [])
            && Lines(more) == Lines(calls) + (if Open(calls) then s else [])
            && Written(more) == Written(calls) && (Open(calls) ==> Written(calls) == [])
            && (Open(more) <==> Open(calls) && !HasEmptyLine(Lines(calls) + s))
            && (Lossless(more) <==> Lossless(calls) && (Open(calls) ==> s != []))
            && (Write("") in more <==> Write("") in calls)
  {
    var more := calls + [Header(s)];
    Push(calls, Header(s));
    NoMore(Lines(calls));
    NoMore(Written(calls));
    NoMore(HeadSoFar(calls));
    if Open(calls) {
      NothingWritten(calls);
      NoMore(Lines(more));
      assert calls != [] ==> calls[0] in calls;
      Assoc(StatusOf(calls), Lines(calls), s);
    }
  }

  lemma PushWrite(calls: seq<Call>, s: string)
    ensures var more := calls + [Write(s)];
            && HeadSoFar(more) == (if calls == [] then DEFAULT_ERROR else ClosedHead(calls))
            && Written(more) == Written(calls) + s && !Open(more)
            && (Lossless(more) <==> Lossless(calls) && (Write("") in calls ==> s == []))
            && (Write("") in more <==> Write("") in calls || s == [])
  {
    var more := calls + [Write(s)];
    Push(calls, Write(s));
    assert Write(s) in more && (Write("") in more ==> Write("") in calls || Write(s) == Write(""));
    HeadAtWrite(calls, s);
  }

  lemma HeadAtWrite(calls: seq<Call>, s: string)
    ensures HeadSoFar(calls + [Write(s)]) == if calls == [] then DEFAULT_ERROR else ClosedHead(calls)
  {
    if calls != [] {
      var more, lines := calls + [Write(s)], Lines(calls);
      Push(calls, Write(s));
      NoMore(lines);
      assert more[0] == calls[0] && Lines(more) == lines;
      if calls[0].Write? {
        WriteFirst(calls);
        NoMore(DEFAULT_ERROR);
      } else {
        NoMore(StatusOf(calls) + (lines + Closing(lines)));
        Assoc(StatusOf(calls), lines, Closing(lines));
      }
    }
  }

  /** The header text with what close_header adds. */
  ghost function ClosedHead(calls: seq<Call>): string {
    HeadSoFar(calls) + if Open(calls) then Closing(Lines(calls)) else []
  }

  lemma HeadIsClosed(calls: seq<Call>)
    ensures Head(calls) == if calls == [] then DEFAULT_OK else ClosedHead(calls)
  {
    if calls != [] && calls[0].Write? { WriteFirst(calls); }
    NoMore(HeadSoFar(calls));
    NoMore(Lines(calls));
    Assoc(StatusOf(calls), Lines(calls), Closing(Lines(calls)));
  }

  // ---------------------------------------------------------------- the shape of a response

  /** The header call that completes the empty line. */
  lemma {:induction false} Completer(calls: seq<Call>) returns (k: nat)
    requires HasEmptyLine(Lines(calls))
    ensures k < |calls| && calls[k].Header? && Open(calls[..k]) && Lines(calls) == Lines(calls[..k]) + calls[k].s
  {
    var n := |calls| - 1;
    var front := calls[..n];
    if HasEmptyLine(Lines(front)) {
      k := Completer(front);
      assert front[..k] == calls[..k];
      assert Lines(calls) == Lines(front);
    } else {
      k := n;
      assert Lines(front) + [] == Lines(front);
    }
  }

  /** A line break ends the last line, and closes the header if that line was empty. */
  lemma Break(t: string)
    ensures HasEmptyLine(t + "\r\n") <==> HasEmptyLine(t) || !LineHasData(t)
    ensures !LineHasData(t + "\r\n")
    ensures HasEmptyLine(t + ['\r']) <==> HasEmptyLine(t)
  {
    NextChar(t, '\r');
    NextChar(t + ['\r'], '\n');
    assert t + ['\r'] + ['\n'] == t + "\r\n";
  }

  lemma BreakEnds(t: string)
    requires !HasEmptyLine(t) && !LineHasData(t)
    ensures EndsHeader(t + "\r\n")
  {
    Break(t);
    var u := t + "\r\n";
    assert u[..|u| - 1] == t + ['\r'];
  }

  lemma BreakTwice(t: string)
    requires !HasEmptyLine(t) && LineHasData(t)
    ensures EndsHeader(t + "\r\n\r\n")
  {
    Break(t);
    BreakEnds(t + "\r\n");
    assert (t + "\r\n") + "\r\n" == t + "\r\n\r\n";
  }

  lemma DefaultsClose()
    ensures EndsHeader(DEFAULT_ERROR) && EndsHeader(DEFAULT_OK)
  {
    StatusCloses("500 Server Error");
    StatusCloses("200");
  }

  lemma StatusCloses(status: string)
    requires '\n' !in status
    ensures EndsHeader("Status: " + status + "\r\n\r\n")
  {
    var line := "Status: " + status;
    OneLine(status);
    BreakEnds(line + "\r\n");
    Assoc(line, "\r\n", "\r\n");
    assert "\r\n" + "\r\n" == "\r\n\r\n";
  }

  lemma OneLine(status: string)
    requires '\n' !in status
    ensures !HasEmptyLine("Status: " + status + "\r\n") && !LineHasData("Status: " + status + "\r\n")
  {
    var t := "Status: " + status + "\r";
    assert DataAt(t, 0);
    assert forall i | 0 <= i < |t| :: t[i] != '\n';
    assert !HasEmptyLine(t);
    NextChar(t, '\n');
    assert t + ['\n'] == "Status: " + status + "\r\n";
  }

  lemma StatusIsWhole(calls: seq<Call>)
    ensures WholeLines(StatusOf(calls))
  {
  }

  lemma ClosingEnds(lines: string)
    requires !HasEmptyLine(lines)
    ensures EndsHeader(lines + Closing(lines)) && Closing(lines) != []
  {
    if LineHasData(lines) { BreakTwice(lines); } else { BreakEnds(lines); }
  }

  lemma AllIsHeader(t: string)
    requires HasEmptyLine(t)
    ensures BehindHeader(t) == [] <==> EndsHeader(t)
  {
    assert t[..|t|] == t;
    if EndsHeader(t) { HeaderEndIs(t, |t|); }
  }

  lemma EndsWithItIs(before: string, s: string)
    requires !HasEmptyLine(before)
    ensures EndsWithIt(before, s) <==> (HasEmptyLine(before + s) ==> EndsHeader(before + s))
  {
    var all := before + s;
    if s == [] {
      assert all == before;
    } else {
      var front := before + s[..|s| - 1];
      assert all[..|all| - 1] == front && all == front + [s[|s| - 1]];
      if HasEmptyLine(front) { EmptyLineKept(front, [s[|s| - 1]]); }
    }
  }

  lemma {:induction false} TidyIs(calls: seq<Call>)
    ensures Tidy(calls) <==> (HasEmptyLine(Lines(calls)) ==> EndsHeader(Lines(calls)))
  {
    if calls == [] {
      NoLines();
    } else {
      var front, last := calls[..|calls| - 1], calls[|calls| - 1];
      TidyIs(front);
      if last.Header? && Open(front) {
        EndsWithItIs(Lines(front), last.s);
      } else {
        assert Lines(calls) == Lines(front);
      }
    }
  }

  /** What is sent behind the lines' own empty line: nothing, if and only if each call that
      is sent ends with it. */
  lemma LinesAreNeat(calls: seq<Call>)
    ensures var all := Lines(calls) + Closing(Lines(calls));
            HasEmptyLine(all) && (BehindHeader(all) == [] <==> Tidy(calls))
  {
    var lines := Lines(calls);
    TidyIs(calls);
    if HasEmptyLine(lines) {
      assert lines + Closing(lines) == lines;
      AllIsHeader(lines);
    } else {
      ClosingEnds(lines);
      AllIsHeader(lines + Closing(lines));
    }
  }

  /** Every response has a header that ends; what follows it is the body, if and only if the
      calls are neat. */
  lemma BodyIsBehindHeader(calls: seq<Call>)
    ensures HasEmptyLine(Head(calls) + Written(calls))
    ensures BehindHeader(Head(calls) + Written(calls)) == Written(calls) <==> Neat(calls)
  {
    HeadIsHeader(calls);
    BehindAppend(Head(calls), Written(calls));
    var rest := BehindHeader(Head(calls));
    assert rest + Written(calls) == Written(calls) ==> |rest| == 0;
    assert [] + Written(calls) == Written(calls);
  }

  lemma HeadIsHeader(calls: seq<Call>)
    ensures HasEmptyLine(Head(calls)) && (BehindHeader(Head(calls)) == [] <==> Neat(calls))
  {
    if calls == [] || calls[0].Write? {
      DefaultsClose();
      AllIsHeader(Head(calls));
      DefaultIsNeat(calls);
    } else {
      var status, all := StatusOf(calls), Lines(calls) + Closing(Lines(calls));
      StatusIsWhole(calls);
      LinesAreNeat(calls);
      LinesJoin(status, all);
      if HasEmptyLine(status) {
        BehindAppend(status, all);
        assert all != [];
      } else {
        BehindLines(status, all);
      }
    }
  }

  lemma {:induction false} DefaultIsNeat(calls: seq<Call>)
    requires calls == [] || calls[0].Write?
    ensures Neat(calls)
  {
    NoLines();
    if calls != [] {
      var front := calls[..|calls| - 1];
      DefaultIsNeat(front);
      if front != [] { WriteFirst(front); }
    }
  }

  predicate IsRest(rest: string, s: string) { |rest| < |s| && s[|s| - |rest|..] == rest }

  /** Unless the status has an empty line in it, what is behind the header and is not body is
      the rest of one header text. */
  lemma RestOfOneCall(calls: seq<Call>) returns (k: nat)
    requires !Neat(calls) && !HasEmptyLine(StatusOf(calls))
    ensures HasEmptyLine(Head(calls)) && k < |calls| && calls[k].Header? && Open(calls[..k])
    ensures BehindHeader(Head(calls)) != [] && IsRest(BehindHeader(Head(calls)), calls[k].s)
  {
    TidyIs(calls);
    k := Completer(calls);
    RestIsShort(Lines(calls[..k]), calls[k].s);
    HeadOfLines(calls);
    HeadIsHeader(calls);
  }

  lemma HeadOfLines(calls: seq<Call>)
    requires !HasEmptyLine(StatusOf(calls)) && HasEmptyLine(Lines(calls))
    ensures HasEmptyLine(Head(calls)) && BehindHeader(Head(calls)) == BehindHeader(Lines(calls))
  {
    if calls == [] || calls[0].Write? {
      if calls != [] { WriteFirst(calls); }
      assert false;
    }
    var lines := Lines(calls);
    assert lines + Closing(lines) == lines;
    StatusIsWhole(calls);
    BehindLines(StatusOf(calls), lines);
  }

  lemma RestIsShort(before: string, s: string)
    requires !HasEmptyLine(before) && HasEmptyLine(before + s)
    ensures IsRest(BehindHeader(before + s), s)
  {
    var lines := before + s;
    var n := HeaderEnd(lines);
    if n <= |before| {
      assert before == lines[..n] + before[n..];
      EmptyLineKept(lines[..n], before[n..]);
    }
  }

  /** What a reader of header lines finds as the status, if the text starts with one. */
  function StatusFound(t: string): Option<string> {
    if "Status: " <= t then Some(UpToBreak(t[8..])) else None
  }

  predicate IsBreak(c: char) { c == '\r' || c == '\n' }

  function UpToBreak(s: string): string {
    if s == [] || IsBreak(s[0]) then [] else [s[0]] + UpToBreak(s[1..])
  }

  lemma {:induction false} UpToBreakIs(v: string, rest: string)
    requires (forall c <- v :: !IsBreak(c)) && rest != [] && IsBreak(rest[0])
    ensures UpToBreak(v + rest) == v
  {
    if v == [] {
      assert v + rest == rest;
    } else {
      assert v[0] in v && forall c <- v[1..] :: c in v;
      UpToBreakIs(v[1..], rest);
      assert (v + rest)[1..] == v[1..] + rest;
    }
  }

  /** A response starts with the status that the first call sets, with 500 if that is a
      write, with 200 if there is no call, and otherwise with the first header text. */
  lemma StatusOfResponse(calls: seq<Call>)
    ensures var text := Head(calls) + Written(calls);
            && (calls == [] ==> StatusFound(text) == Some("200"))
            && (calls != [] && calls[0].Write? ==> StatusFound(text) == Some("500 Server Error"))
            && (calls != [] && calls[0].Status? && (forall c <- calls[0].s :: !IsBreak(c)) ==>
                  StatusFound(text) == Some(calls[0].s))
            && (calls != [] && calls[0].Header? ==> calls[0].s <= text)
  {
    var w := Written(calls);
    if calls == [] {
      StatusBehind("200", "\r\n\r\n" + w);
      Assoc("Status: " + "200", "\r\n\r\n", w);
    } else if calls[0].Write? {
      StatusBehind("500 Server Error", "\r\n\r\n" + w);
      Assoc("Status: " + "500 Server Error", "\r\n\r\n", w);
    } else if calls[0].Status? {
      var rest := Lines(calls) + Closing(Lines(calls));
      var v := calls[0].s;
      if forall c <- v :: !IsBreak(c) {
        StatusBehind(v, "\r\n" + (rest + w));
        Assoc(StatusLine(v), rest, w);
        Assoc("Status: " + v, "\r\n", rest + w);
      }
    } else {
      FirstLines(calls);
      assert StatusOf(calls) == [] && Head(calls) == [] + (Lines(calls) + Closing(Lines(calls)));
      assert Head(calls) == Lines(calls) + Closing(Lines(calls));
    }
  }

  lemma StatusBehind(v: string, rest: string)
    requires (forall c <- v :: !IsBreak(c)) && rest != [] && IsBreak(rest[0])
    ensures StatusFound("Status: " + v + rest) == Some(v)
  {
    var t := "Status: " + v + rest;
    assert t == "Status: " + (v + rest) && t[8..] == v + rest;
    UpToBreakIs(v, rest);
  }

  lemma {:induction false} FirstLines(calls: seq<Call>)
    requires calls != [] && calls[0].Header?
    ensures calls[0].s <= Lines(calls)
  {
    var front := calls[..|calls| - 1];
    NoLines();
    if front == [] {
      assert Lines(calls) == "" + calls[0].s;
    } else {
      FirstLines(front);
    }
  }

  // ---------------------------------------------------------------- the service

  class Service {
    var headSended: bool
    var headerClosed: bool
    var lineHasData: bool
    var text: string            // the contents of the data records sent
    var ended: bool             // an empty data record was sent
    ghost var received: string  // the contents up to the first empty record
    ghost var made: seq<Call>   // the calls so far

    /** What has reached the parent, which stops listening at an empty record. */
    ghost predicate Listening() reads this {
      received <= text && (!ended ==> received == text)
    }

    /** The flags and the text follow from the calls. */
    ghost predicate Valid() reads this {
      && (headSended <==> made != [])
      && (headerClosed <==> !Open(made))
      && (!headerClosed ==> (lineHasData <==> LineHasData(Lines(made))))
      && text == HeadSoFar(made) + Written(made)
      && (Open(made) ==> Written(made) == [])
      && Listening()
      && (Lossless(made) <==> received == text && (ended ==> headerClosed))
      && (Lossless(made) ==> (ended <==> Write("") in made))
    }

    constructor ()
      ensures Valid() && made == [] && !ended
    {
      headSended, headerClosed, lineHasData := false, false, false;
      text, ended, received, made := [], false, [], [];
    }

    /** write_data: no bytes means the end-of-stream record. */
    method WriteData(s: string)
      requires Listening()
      modifies `text, `ended, `received
      ensures Listening() && text == old(text) + s && ended == (old(ended) || s == [])
      ensures received == if old(ended) then old(received) else text
      ensures received == text <==> old(received == text) && (old(ended) ==> s == [])
    {
      if s == [] { ended := true; }
      if !ended { received := received + s; }
      text := text + s;
      assert text == old(text) + s;
    }

    method SetStatusCode(status: string)
      requires Valid()
      modifies this
      ensures Valid() && made == old(made) + [Status(status)]
    {
      PushStatus(made, status);
      made := made + [Status(status)];
      if headSended { return; }
      headSended := true;
      NoMore(StatusLine(status));
      WriteStatus(status);
    }

    method WriteStatus(status: string)
      requires Listening() && text == [] && !ended
      modifies `text, `ended, `received
      ensures Listening() && text == StatusLine(status) && (ended <==> status == [])
      ensures received == text <==> status != []
    {
      WriteData("Status: ");
      assert text == "Status: ";
      WriteData(status);
      WriteData("\r\n");
    }

    /** addHeader: nothing is sent behind a closed header. */
    method AddHeader(attr: string) returns (ok: bool)
      requires Valid()
      modifies this
      ensures Valid() && made == old(made) + [Header(attr)] && ok == Open(old(made))
      ensures text == old(text) + if ok then attr else []
    {
      if !headerClosed {
        SendHeader(attr);
        return true;
      }
      PushHeader(made, attr);
      NoMore(HeadSoFar(made));
      NoMore(Lines(made));
      NoMore(text);
      made := made + [Header(attr)];
      return false;
    }

    /** ... else the text is scanned for the empty line that closes the header. */
    method SendHeader(attr: string)
      requires Valid() && !headerClosed
      modifies this
      ensures Valid() && made == old(made) + [Header(attr)] && text == old(text) + attr
    {
      PushHeader(made, attr);
      NoMore(HeadSoFar(made));
      NoMore(HeadSoFar(made) + attr);
      NoMore(Lines(made));
      ghost var before, more := Lines(made), made + [Header(attr)];
      assert Lines(more) == before + attr && HeadSoFar(more) == HeadSoFar(made) + attr && Written(more) == [];
      assert more != [];
      made := more;
      WriteData(attr);
      headSended := true;
      Scan(before, attr);
    }

    /** The loop of addHeader. */
    method Scan(ghost before: string, attr: string)
      requires !headerClosed && !HasEmptyLine(before) && (lineHasData <==> LineHasData(before))
      modifies `headerClosed, `lineHasData
      ensures headerClosed <==> HasEmptyLine(before + attr)
      ensures !headerClosed ==> (lineHasData <==> LineHasData(before + attr))
    {
      assert before == before + attr[..0] && attr[..|attr|] == attr;
      for i := 0 to |attr|
        invariant !headerClosed && !HasEmptyLine(before + attr[..i])
        invariant lineHasData <==> LineHasData(before + attr[..i])
      {
        NextChar(before + attr[..i], attr[i]);
        assert before + attr[..i + 1] == before + attr[..i] + [attr[i]];
        if attr[i] == '\n' {
          if !lineHasData {
            headerClosed := true;
            assert before + attr == (before + attr[..i + 1]) + attr[i + 1..];
            EmptyLineKept(before + attr[..i + 1], attr[i + 1..]);
            return;
          }
          lineHasData := false;
        } else if attr[i] != '\r' {
          lineHasData := true;
        }
      }
    }

    /** close_header: ends the header section if it is still open. */
    method CloseHeader()
      requires Valid() && headSended
      modifies `headerClosed, `text, `ended, `received
      ensures headerClosed && Listening() && ended == old(ended)
      ensures text == ClosedHead(made) + Written(made)
      ensures received == text <==> Lossless(made)
    {
      NoMore(HeadSoFar(made));
      NoMore(ClosedHead(made));
      if headerClosed { return; }
      headerClosed := true;
      if lineHasData {
        WriteData("\r\n\r\n");
      } else {
        WriteData("\r\n");
      }
    }

    /** The header is ended, or the default one sent. */
    method StartBody(default: string)
      requires Valid() && default != []
      modifies `headSended, `headerClosed, `text, `ended, `received
      ensures headSended && headerClosed && Listening() && ended == old(ended)
      ensures text == (if made == [] then default else ClosedHead(made)) + Written(made)
      ensures received == text <==> Lossless(made)
    {
      if headSended {
        CloseHeader();
      } else {
        headSended := true;
        headerClosed := true;
        NoMore(default);
        WriteData(default);
      }
    }

    /** writeClient: body bytes, after a closed header. */
    method WriteClient(s: string) returns (n: int)
      requires Valid()
      modifies this
      ensures Valid() && made == old(made) + [Write(s)] && n == |s|
    {
      PushWrite(made, s);
      StartBody(DEFAULT_ERROR);
      Assoc(HeadSoFar(made + [Write(s)]), Written(made), s);
      made := made + [Write(s)];
      WriteData(s);
      return |s|;
    }

    /** The end of start: a response without any call gets a default status; then the data
        stream is ended. */
    method Finish()
      requires Valid()
      modifies this
      ensures text == Head(made) + Written(made) && made == old(made)
      ensures received <= text && (received == text <==> Lossless(made))
      ensures headerClosed && ended
    {
      HeadIsClosed(made);
      StartBody(DEFAULT_OK);
      WriteData([]);
    }

    /** One call of an extension. */
    method Make(c: Call)
      requires Valid()
      modifies this
      ensures Valid() && made == old(made) + [c]
    {
      match c {
        case Status(s) => SetStatusCode(s);
        case Header(s) =>
          var ok := AddHeader(s);
        case Write(s) =>
          var n := WriteClient(s);
      }
    }

    method MakeAll(calls: seq<Call>)
      requires Valid()
      modifies this
      ensures Valid() && made == old(made) + calls
    {
      if calls == [] {
        NoMoreCalls(made);
        return;
      }
      OneByOne(made, calls);
      Make(calls[0]);
      MakeAll(calls[1..]);
    }

    /** Any sequence of calls, and the end of the request. What the parent finds behind the
        first empty line is the bytes written as body, if and only if the calls are neat, and
        it gets all that was sent, if and only if they are lossless. */
    method Respond(calls: seq<Call>)
      requires Valid() && made == []
      modifies this
      ensures text == Head(calls) + Written(calls) && HasEmptyLine(text)
      ensures BehindHeader(text) == Written(calls) <==> Neat(calls)
      ensures ended && received <= text && (received == text <==> Lossless(calls))
    {
      MakeAll(calls);
      assert made == calls;
      Finish();
      BodyIsBehindHeader(calls);
    }
  }

  /** A header text that goes on behind its empty line puts the rest into the body. */
  lemma HeaderRestIsBody()
    ensures var head := Head([Header("A: 1" + "\r\n\r\n" + "X")]);
            HasEmptyLine(head) && BehindHeader(head) == "X"
  {
    var line, c := "A: 1", Header("A: 1" + "\r\n\r\n" + "X");
    DataLine(line);
    BreakTwice(line);
    var section := line + "\r\n\r\n";
    EmptyLineKept(section, "X");
    assert [c][..0] == [] && [] + c.s == c.s;
    assert Lines([c]) == c.s;
    HeadOfLines([c]);
    AllIsHeader(section);
    BehindAppend(section, "X");
  }

  /** A status text with a line break of its own ends the header before the header does. */
  lemma StatusBreakIsBody()
    ensures var head := Head([Status("200" + "\n")]);
            HasEmptyLine(head) && BehindHeader(head) == "\r\n"
  {
    var c := Status("200" + "\n");
    var line := "Status: " + "200" + "\n";
    DataLine("Status: " + "200");
    NextChar("Status: " + "200", '\n');
    assert line == ("Status: " + "200") + ['\n'];
    BreakEnds(line);
    var section := line + "\r\n";
    Assoc(line, "\r", "\n");
    assert StatusLine(c.s) == section;
    NoLines();
    OnlyStatus(c.s);
    AllIsHeader(section);
    BehindAppend(section, "\r\n");
  }

  lemma OnlyStatus(s: string)
    ensures Head([Status(s)]) == StatusLine(s) + "\r\n"
  {
    var none: seq<Call> := [];
    PushStatus(none, s);
    assert none + [Status(s)] == [Status(s)];
    NoLines();
    assert Lines([Status(s)]) == "";
    assert "" + "\r\n" == "\r\n";
  }

  lemma DataLine(line: string)
    requires line != [] && line[0] != '\r' && '\n' !in line
    ensures LineHasData(line) && !HasEmptyLine(line)
  {
    assert DataAt(line, 0);
  }

  /** An empty header text ends the stream in front of the line that closes the header, and
      an empty write cuts off what follows; an empty write alone loses nothing. */
  lemma EmptyTextsCut()
    ensures !Lossless([Header("")]) && !Lossless([Write("a"), Write(""), Write("b")])
    ensures Lossless([Write("")])
  {
    var h, w, b := [Header("")], [Write("")], [Write("a"), Write(""), Write("b")];
    NoLines();
    assert h[..0] == [] && w[..0] == [];
    assert b[..2][1] == Write("");
  }
}
