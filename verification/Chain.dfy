/** The access chain: conditions joined by "or next" into groups, all of which must hold,
    then marks joined the same way, which act on the request. */
module Chain {
  import opened Wire

  /** One item of a list as far as its joining is concerned. */
  datatype Term = Term(holds: bool, isOr: bool)

  // ---------------------------------------------------------------- what a list means

  /** The end of the group that i lies in. */
  function GroupEnd(ts: seq<Term>, i: nat): (e: nat)
    requires i < |ts|
    ensures i < e <= |ts|
    decreases |ts| - i
  {
    if ts[i].isOr && i + 1 < |ts| then GroupEnd(ts, i + 1) else i + 1
  }

  predicate OrOf(ts: seq<Term>, a: nat, e: nat)
    requires e <= |ts|
  {
    exists k :: a <= k < e && ts[k].holds
  }

  /** From the group at i on, every group has a member that holds. */
  predicate AndOfOrs(ts: seq<Term>, i: nat)
    decreases |ts| - i
  {
    i < |ts| ==> OrOf(ts, i, GroupEnd(ts, i)) && AndOfOrs(ts, GroupEnd(ts, i))
  }

  /** What evaluating the group a..e from the left asks for. */
  function OrCalls(ts: seq<Term>, a: nat, e: nat): seq<nat>
    requires e <= |ts|
    decreases e - a
  {
    if a >= e then [] else [a] + if ts[a].holds then [] else OrCalls(ts, a + 1, e)
  }

  function AndCalls(ts: seq<Term>, i: nat): seq<nat>
    decreases |ts| - i
  {
    if i >= |ts| then []
    else
      var e := GroupEnd(ts, i);
      OrCalls(ts, i, e) + if OrOf(ts, i, e) then AndCalls(ts, e) else []
  }

  // ---------------------------------------------------------------- what the loop does

  /** What the loop still asks for from item i on ... */
  function Asks(ts: seq<Term>, i: nat, result: bool, lastOr: bool): seq<nat>
    requires i <= |ts|
    decreases |ts| - i
  {
    if i == |ts| then []
    else if result && lastOr then Asks(ts, i + 1, result, ts[i].isOr)
    else if !ts[i].holds && !ts[i].isOr then [i]
    else [i] + Asks(ts, i + 1, ts[i].holds, ts[i].isOr)
  }

  /** ... and what it then answers. */
  function Answers(ts: seq<Term>, i: nat, result: bool, lastOr: bool): bool
    requires i <= |ts|
    decreases |ts| - i
  {
    if i == |ts| then result
    else if result && lastOr then Answers(ts, i + 1, result, ts[i].isOr)
    else if !ts[i].holds && !ts[i].isOr then false
    else Answers(ts, i + 1, ts[i].holds, ts[i].isOr)
  }

  /** A member that does not hold passes the question on to the next one of its group. */
  lemma GroupStep(ts: seq<Term>, i: nat)
    requires i + 1 < |ts| && !ts[i].holds && ts[i].isOr
    ensures AndOfOrs(ts, i) == AndOfOrs(ts, i + 1) && AndCalls(ts, i) == [i] + AndCalls(ts, i + 1)
  {
    var e := GroupEnd(ts, i);
    assert OrOf(ts, i, e) == OrOf(ts, i + 1, e);
    var rest := if OrOf(ts, i, e) then AndCalls(ts, e) else [];
    Assoc([i], OrCalls(ts, i + 1, e), rest);
  }

  lemma GroupHolds(ts: seq<Term>, i: nat)
    requires i < |ts| && ts[i].holds
    ensures var e := GroupEnd(ts, i);
            AndOfOrs(ts, i) == AndOfOrs(ts, e) && AndCalls(ts, i) == [i] + AndCalls(ts, e)
  {
    assert OrOf(ts, i, GroupEnd(ts, i));
    assert OrCalls(ts, i, GroupEnd(ts, i)) == [i];
  }

  lemma GroupFails(ts: seq<Term>, i: nat)
    requires i < |ts| && !ts[i].holds && GroupEnd(ts, i) == i + 1
    ensures !AndOfOrs(ts, i) && AndCalls(ts, i) == [i]
  {
    assert OrCalls(ts, i, i + 1) + [] == [i];
  }

  /** A group that holds already is skipped to its end. */
  lemma {:induction false} LoopSkips(ts: seq<Term>, i: nat)
    requires i < |ts|
    ensures Answers(ts, i, true, true) == AndOfOrs(ts, GroupEnd(ts, i))
    ensures Asks(ts, i, true, true) == AndCalls(ts, GroupEnd(ts, i))
    decreases |ts| - i, 0
  {
    if i + 1 < |ts| {
      if ts[i].isOr { LoopSkips(ts, i + 1); } else { LoopMeaning(ts, i + 1, false); }
    }
  }

  /** At the start of a group, or inside one that does not hold yet, the loop evaluates
      the rest of the group from the left and then the other groups. */
  lemma {:induction false} LoopMeaning(ts: seq<Term>, i: nat, inside: bool)
    requires i < |ts|
    ensures Answers(ts, i, !inside, inside) == AndOfOrs(ts, i)
    ensures Asks(ts, i, !inside, inside) == AndCalls(ts, i)
    decreases |ts| - i, 1
  {
    if ts[i].holds {
      GroupHolds(ts, i);
      if i + 1 < |ts| {
        if ts[i].isOr { LoopSkips(ts, i + 1); } else { LoopMeaning(ts, i + 1, false); }
      }
    } else if ts[i].isOr && i + 1 < |ts| {
      LoopMeaning(ts, i + 1, true);
      GroupStep(ts, i);
    } else {
      GroupFails(ts, i);
    }
  }

  lemma LoopIsAndOfOrs(ts: seq<Term>)
    ensures Answers(ts, 0, true, false) == AndOfOrs(ts, 0) && Asks(ts, 0, true, false) == AndCalls(ts, 0)
  {
    if ts != [] { LoopMeaning(ts, 0, false); }
  }

  // ---------------------------------------------------------------- the chain

  /** A condition with the answer its model gives to the request. */
  datatype Acl = Acl(matches: bool, revers: bool, isOr: bool) {
    function AsTerm(): Term { Term(matches != revers, isOr) }
  }

  /** The bits of a result. */
  datatype Status = Status(truth: bool, finished: bool, deferred: bool) {
    predicate NonZero() { truth || finished || deferred }
  }

  /** A mark with what its model returns, and whether it sets a source. */
  datatype Mark = Mark(status: Status, setsSource: bool, revers: bool, isOr: bool) {
    function AsTerm(): Term { Term(status.truth != revers, isOr) }
  }

  function AclTerms(acls: seq<Acl>): seq<Term> {
    seq(|acls|, i requires 0 <= i < |acls| => acls[i].AsTerm())
  }

  function MarkTerms(marks: seq<Mark>): seq<Term> {
    seq(|marks|, i requires 0 <= i < |marks| => marks[i].AsTerm())
  }

  /** What a chain answers: the result, the marks called and whether it counts as a hit. */
  datatype Verdict = Verdict(status: Status, called: seq<nat>, hit: bool)

  predicate Below(calls: seq<nat>, n: nat) {
    forall k :: 0 <= k < |calls| ==> calls[k] < n
  }

  /** Calling marks in the given order until one finishes, or leaves a source behind
      without failing its group; value is the answer if none does. */
  function Process(marks: seq<Mark>, calls: seq<nat>, value: bool, source: bool, deferred: bool): Verdict
    requires Below(calls, |marks|)
  {
    if calls == [] then Verdict(Status(value, false, value && deferred), [], value && !deferred)
    else
      var m, t := marks[calls[0]], marks[calls[0]].AsTerm();
      if m.status.finished then Verdict(m.status, [calls[0]], true)
      else if (source || m.setsSource) && (t.holds || t.isOr) then Verdict(Status(true, false, false), [calls[0]], true)
      else
        var v := Process(marks, calls[1..], value, source || m.setsSource, deferred || m.status.deferred);
        v.(called := [calls[0]] + v.called)
  }

  lemma {:induction false} AsksAreIndices(ts: seq<Term>, i: nat, result: bool, lastOr: bool)
    requires i <= |ts|
    ensures Below(Asks(ts, i, result, lastOr), |ts|)
    decreases |ts| - i
  {
    if i < |ts| {
      if result && lastOr {
        AsksAreIndices(ts, i + 1, result, ts[i].isOr);
      } else {
        AsksAreIndices(ts, i + 1, ts[i].holds, ts[i].isOr);
      }
    }
  }

  method MatchAcls(acls: seq<Acl>) returns (result: bool, called: seq<nat>)
    ensures result == AndOfOrs(AclTerms(acls), 0) && called == AndCalls(AclTerms(acls), 0)
  {
    ghost var ts := AclTerms(acls);
    LoopIsAndOfOrs(ts);
    result, called := true, [];
    ghost var rest := Asks(ts, 0, true, false);
    var lastOr, i := false, 0;
    while i < |acls|
      invariant i <= |acls|
      invariant AndOfOrs(ts, 0) == Answers(ts, i, result, lastOr)
      invariant AndCalls(ts, 0) == called + rest && rest == Asks(ts, i, result, lastOr)
    {
      if result && lastOr {
        lastOr := acls[i].isOr;
      } else {
        result := acls[i].matches != acls[i].revers;
        lastOr := acls[i].isOr;
        if !result && !lastOr { return result, called + [i]; }
        rest := Asks(ts, i + 1, result, lastOr);
        Assoc(called, [i], rest);
        called := called + [i];
      }
      i := i + 1;
    }
  }

  /** What the mark loop amounts to from mark i on. */
  ghost function Rest(marks: seq<Mark>, i: nat, result: bool, lastOr: bool, source: bool, deferred: bool): Verdict
    requires i <= |marks|
  {
    var ts := MarkTerms(marks);
    AsksAreIndices(ts, i, result, lastOr);
    Process(marks, Asks(ts, i, result, lastOr), Answers(ts, i, result, lastOr), source, deferred)
  }

  /** One mark that is not skipped. */
  lemma RestStep(marks: seq<Mark>, i: nat, result: bool, lastOr: bool, source: bool, deferred: bool)
    requires i < |marks| && !(result && lastOr)
    ensures var m, t := marks[i], marks[i].AsTerm();
            var fo, late := source || m.setsSource, deferred || m.status.deferred;
            Rest(marks, i, result, lastOr, source, deferred) ==
            if m.status.finished then Verdict(m.status, [i], true)
            else if !t.holds && !t.isOr then Verdict(Status(false, false, false), [i], false)
            else if fo then Verdict(Status(true, false, false), [i], true)
            else var v := Rest(marks, i + 1, t.holds, t.isOr, fo, late); v.(called := [i] + v.called)
  {
    var ts := MarkTerms(marks);
    AsksAreIndices(ts, i, result, lastOr);
    AsksAreIndices(ts, i + 1, ts[i].holds, ts[i].isOr);
    var asks, more := Asks(ts, i, result, lastOr), Asks(ts, i + 1, ts[i].holds, ts[i].isOr);
    if !ts[i].holds && !ts[i].isOr {
      assert asks == [i] && asks[1..] == [] && [i] + [] == [i];
      assert Process(marks, asks[1..], false, source || marks[i].setsSource, deferred || marks[i].status.deferred)
          == Verdict(Status(false, false, false), [], false);
    } else {
      assert asks == [i] + more && asks[1..] == more;
    }
  }

  lemma RestSkip(marks: seq<Mark>, i: nat, source: bool, deferred: bool)
    requires i < |marks|
    ensures Rest(marks, i, true, true, source, deferred) == Rest(marks, i + 1, true, marks[i].isOr, source, deferred)
  {
  }

  lemma Called(goal: Verdict, r: Verdict, v: Verdict, called: seq<nat>, i: nat)
    requires goal == r.(called := called + r.called) && r == v.(called := [i] + v.called)
    ensures goal == v.(called := (called + [i]) + v.called)
  {
    Assoc(called, [i], v.called);
  }

  method ProcessMarks(marks: seq<Mark>, source: bool) returns (v: Verdict)
    ensures v == Rest(marks, 0, true, false, source, false)
  {
    var called: seq<nat>, result, lastOr, fo, deferred, i := [], true, false, source, false, 0;
    ghost var goal := Rest(marks, 0, true, false, source, false);
    while i < |marks|
      invariant i <= |marks|
      invariant var r := Rest(marks, i, result, lastOr, fo, deferred); goal == r.(called := called + r.called)
    {
      if result && lastOr {
        RestSkip(marks, i, fo, deferred);
        lastOr := marks[i].isOr;
      } else {
        RestStep(marks, i, result, lastOr, fo, deferred);
        var m := marks[i];
        ghost var r := Rest(marks, i, result, lastOr, fo, deferred);
        ghost var was := called;
        called, fo := called + [i], fo || m.setsSource;
        if m.status.finished { return Verdict(m.status, called, true); }
        deferred := deferred || m.status.deferred;
        result, lastOr := m.status.truth != m.revers, m.isOr;
        if !result && !lastOr { return Verdict(Status(false, false, false), called, false); }
        if fo { return Verdict(Status(true, false, false), called, true); }
        Called(goal, r, Rest(marks, i + 1, result, lastOr, fo, deferred), was, i);
      }
      i := i + 1;
    }
    return Verdict(Status(result, false, result && deferred), called, result && !deferred);
  }

  /** The marks that are called begin the calls of the short-circuit evaluation of the
      whole list, and end early only at one that finishes or leaves a source. */
  lemma {:induction false} CalledIsPrefix(marks: seq<Mark>, calls: seq<nat>, value: bool, source: bool, deferred: bool)
    requires Below(calls, |marks|)
    ensures var v := Process(marks, calls, value, source, deferred);
            && v.called <= calls
            && (v.called < calls ==>
                  && v.called != []
                  && (|| marks[v.called[|v.called| - 1]].status.finished
                      || (v.status.truth && (source || exists c <- v.called :: marks[c].setsSource))))
  {
    if calls != [] {
      var m := marks[calls[0]];
      var rest := Process(marks, calls[1..], value, source || m.setsSource, deferred || m.status.deferred);
      CalledIsPrefix(marks, calls[1..], value, source || m.setsSource, deferred || m.status.deferred);
      assert calls == [calls[0]] + calls[1..];
    }
  }

  /** What the last mark called returns. */
  function LastStatus(marks: seq<Mark>, called: seq<nat>): Status {
    if called != [] && called[|called| - 1] < |marks| then marks[called[|called| - 1]].status
    else Status(false, false, false)
  }

  /** The last mark called both finishes and defers. */
  predicate EndsDeferred(marks: seq<Mark>, called: seq<nat>) {
    LastStatus(marks, called).finished && LastStatus(marks, called).deferred
  }

  /** Only the last mark called can finish, and what it returns is then the result. */
  lemma {:induction false} FinishedIsLast(marks: seq<Mark>, calls: seq<nat>, value: bool, source: bool, deferred: bool)
    requires Below(calls, |marks|)
    ensures var v := Process(marks, calls, value, source, deferred);
            if LastStatus(marks, v.called).finished then v.status == LastStatus(marks, v.called) && v.hit
            else
              && !v.status.finished && v.hit == (v.status.truth && !v.status.deferred)
              && (v.status.deferred ==> v.status.truth)
  {
    if calls != [] {
      var m := marks[calls[0]];
      var rest := Process(marks, calls[1..], value, source || m.setsSource, deferred || m.status.deferred).called;
      FinishedIsLast(marks, calls[1..], value, source || m.setsSource, deferred || m.status.deferred);
      assert rest != [] ==> LastStatus(marks, [calls[0]] + rest) == LastStatus(marks, rest);
    }
  }

  ghost predicate SetsSource(marks: seq<Mark>, called: seq<nat>) {
    exists c <- called :: c < |marks| && marks[c].setsSource
  }

  ghost predicate Defers(marks: seq<Mark>, called: seq<nat>) {
    exists c <- called :: c < |marks| && marks[c].status.deferred
  }

  /** A source is there when the last mark called has held or passes the question on. */
  ghost predicate Sourced(marks: seq<Mark>, called: seq<nat>, source: bool) {
    && called != [] && called[|called| - 1] < |marks|
    && (source || SetsSource(marks, called))
    && var last := marks[called[|called| - 1]]; last.status.truth != last.revers || last.isOr
  }

  /** The result by the marks called: what a finishing mark returns; else success, if there is
      a source; else the answer of the list, deferred if it holds and a mark has deferred. */
  ghost function Outcome(marks: seq<Mark>, called: seq<nat>, value: bool, source: bool, deferred: bool): Status {
    if LastStatus(marks, called).finished then LastStatus(marks, called)
    else if Sourced(marks, called, source) then Status(true, false, false)
    else Status(value, false, value && (deferred || Defers(marks, called)))
  }

  lemma {:induction false} ResultIsOutcome(marks: seq<Mark>, calls: seq<nat>, value: bool, source: bool, deferred: bool)
    requires Below(calls, |marks|)
    ensures var v := Process(marks, calls, value, source, deferred);
            v.status == Outcome(marks, v.called, value, source, deferred)
  {
    if calls != [] {
      var c, m, t := calls[0], marks[calls[0]], marks[calls[0]].AsTerm();
      var fo, late := source || m.setsSource, deferred || m.status.deferred;
      if m.status.finished || (fo && (t.holds || t.isOr)) {
        OutcomeOfOne(marks, c, value, source, deferred);
      } else {
        var v := Process(marks, calls[1..], value, fo, late);
        ResultIsOutcome(marks, calls[1..], value, fo, late);
        CalledIsPrefix(marks, calls[1..], value, fo, late);
        OutcomeCons(marks, c, v.called, value, source, deferred);
      }
    }
  }

  lemma OutcomeOfOne(marks: seq<Mark>, c: nat, value: bool, source: bool, deferred: bool)
    requires c < |marks|
    requires var m := marks[c];
             m.status.finished || ((source || m.setsSource) && (m.AsTerm().holds || m.isOr))
    ensures var m := marks[c];
            Outcome(marks, [c], value, source, deferred) ==
            if m.status.finished then m.status else Status(true, false, false)
  {
    assert c in [c];
  }

  /** A mark that neither finishes nor ends the calls with a source only adds its bits. */
  lemma OutcomeCons(marks: seq<Mark>, c: nat, called: seq<nat>, value: bool, source: bool, deferred: bool)
    requires c < |marks|
    requires var m := marks[c];
             !m.status.finished && !((source || m.setsSource) && (m.AsTerm().holds || m.isOr))
    ensures var m := marks[c];
            Outcome(marks, [c] + called, value, source, deferred) ==
            Outcome(marks, called, value, source || m.setsSource, deferred || m.status.deferred)
  {
    var all := [c] + called;
    OneMoreCalled(marks, c, called);
    if called == [] {
      assert all == [c];
    } else {
      assert all[|all| - 1] == called[|called| - 1];
    }
  }

  lemma OneMoreCalled(marks: seq<Mark>, c: nat, called: seq<nat>)
    requires c < |marks|
    ensures SetsSource(marks, [c] + called) <==> marks[c].setsSource || SetsSource(marks, called)
    ensures Defers(marks, [c] + called) <==> marks[c].status.deferred || Defers(marks, called)
  {
    var all := [c] + called;
    assert all[0] == c && c in all && (forall x <- called :: x in all) && forall x <- all :: x == c || x in called;
  }

  /** A hit is counted exactly for a non-zero result that is not deferred, if and only if the
      last mark called does not both finish and defer; if it does, the result is counted. */
  lemma HitIsUndeferred(marks: seq<Mark>, calls: seq<nat>, value: bool, source: bool, deferred: bool)
    requires Below(calls, |marks|)
    ensures var v := Process(marks, calls, value, source, deferred);
            && ((v.hit <==> v.status.NonZero() && !v.status.deferred) <==> !EndsDeferred(marks, v.called))
            && (EndsDeferred(marks, v.called) ==> v.hit)
  {
    FinishedIsLast(marks, calls, value, source, deferred);
  }

  /** A mark that finishes with the deferred bit set is counted although it is deferred. */
  lemma FinishedDeferralIsHit()
    ensures var v := Process([Mark(Status(false, true, true), false, false, false)], [0], true, false, false);
            v.hit && v.status.deferred
  {
  }

  class Chain {
    const acls: seq<Acl>
    const marks: seq<Mark>
    var hitCount: nat

    constructor (acls: seq<Acl>, marks: seq<Mark>)
      ensures this.acls == acls && this.marks == marks && hitCount == 0
    {
      this.acls, this.marks, hitCount := acls, marks, 0;
    }

    /** The conditions decide; if they hold, the marks run over the calls of a left to
        right evaluation of the marks. */
    method Match(source: bool) returns (status: Status, asked: seq<nat>, called: seq<nat>)
      modifies this
      ensures asked == AndCalls(AclTerms(acls), 0)
      ensures !AndOfOrs(AclTerms(acls), 0) ==> !status.NonZero() && called == [] && hitCount == old(hitCount)
      ensures var ts := MarkTerms(marks);
              AndOfOrs(AclTerms(acls), 0) ==>
                && Below(AndCalls(ts, 0), |marks|)
                && var v := Process(marks, AndCalls(ts, 0), AndOfOrs(ts, 0), source, false);
                   status == v.status && called == v.called && hitCount == old(hitCount) + if v.hit then 1 else 0
      ensures AndOfOrs(AclTerms(acls), 0) ==>
                status == Outcome(marks, called, AndOfOrs(MarkTerms(marks), 0), source, false)
      ensures hitCount == old(hitCount) +
                if EndsDeferred(marks, called) || (status.NonZero() && !status.deferred) then 1 else 0
    {
      var ok;
      ok, asked := MatchAcls(acls);
      if !ok { return Status(false, false, false), asked, []; }
      var v := ProcessMarks(marks, source);
      ghost var ts := MarkTerms(marks);
      LoopIsAndOfOrs(ts);
      AsksAreIndices(ts, 0, true, false);
      HitIsUndeferred(marks, AndCalls(ts, 0), AndOfOrs(ts, 0), source, false);
      ResultIsOutcome(marks, AndCalls(ts, 0), AndOfOrs(ts, 0), source, false);
      if v.hit { hitCount := hitCount + 1; }
      return v.status, asked, v.called;
    }
  }
}
