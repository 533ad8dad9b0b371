/** The reader-writer lock built on one counter and compare-and-swap, for any number of
    threads. A thread loads the counter in one step and swaps it in a later one. */
module RWLock {

  type Tid = nat

  datatype Pc = Idle | ReadSeen(x: int) | WriteSeen | Reader | Writer

  datatype State = State(cnt: int, pcs: map<Tid, Pc>)

  ghost predicate Init(s: State) {
    s.cnt == 0 && forall t :: t in s.pcs ==> s.pcs[t].Idle?
  }

  /** One step of a thread: the new counter and where the thread then stands. */
  ghost predicate Step(cnt: int, pc: Pc, cnt': int, pc': Pc) {
    match pc
    case Idle =>
      && cnt' == cnt
      && (|| (pc' == if cnt < 0 then Idle else ReadSeen(cnt))
          || (pc' == if cnt != 0 then Idle else WriteSeen))
    case ReadSeen(x) => if cnt == x then cnt' == x + 1 && pc' == Reader else cnt' == cnt && pc' == Idle
    case WriteSeen => if cnt == 0 then cnt' == -1 && pc' == Writer else cnt' == cnt && pc' == Idle
    case Reader => cnt' == cnt - 1 && pc' == Idle
    case Writer => cnt' == cnt + 1 && pc' == Idle
  }

  ghost predicate ThreadStep(s: State, r: State, t: Tid) {
    && t in s.pcs && t in r.pcs && Step(s.cnt, s.pcs[t], r.cnt, r.pcs[t])
    && r.pcs == s.pcs[t := r.pcs[t]]
  }

  ghost predicate Next(s: State, r: State) {
    exists t :: ThreadStep(s, r, t)
  }

  ghost predicate Run(run: seq<State>) {
    && run != [] && Init(run[0])
    && forall i :: 0 <= i < |run| - 1 ==> Next(run[i], run[i + 1])
  }

  ghost function Readers(s: State): set<Tid> {
    set t | t in s.pcs && s.pcs[t].Reader?
  }

  ghost function Writers(s: State): set<Tid> {
    set t | t in s.pcs && s.pcs[t].Writer?
  }

  /** The counter is -1 for one writer and no reader, and else counts the readers. */
  ghost predicate Counts(cnt: int, readers: set<Tid>, writers: set<Tid>) {
    if cnt < 0 then cnt == -1 && |writers| == 1 && readers == {} else writers == {} && cnt == |readers|
  }

  ghost predicate Inv(s: State) {
    && Counts(s.cnt, Readers(s), Writers(s))
    && forall t :: t in s.pcs && s.pcs[t].ReadSeen? ==> s.pcs[t].x >= 0
  }

  /** How one step changes who holds the lock. */
  lemma Holders(s: State, r: State, t: Tid)
    requires ThreadStep(s, r, t)
    ensures Readers(r) == if r.pcs[t].Reader? then Readers(s) + {t} else Readers(s) - {t}
    ensures Writers(r) == if r.pcs[t].Writer? then Writers(s) + {t} else Writers(s) - {t}
  {
  }

  lemma StepKeeps(s: State, r: State, t: Tid)
    requires Inv(s) && ThreadStep(s, r, t)
    ensures Inv(r)
  {
    Holders(s, r, t);
    CountsStep(s.cnt, s.pcs[t], r.cnt, r.pcs[t], Readers(s), Writers(s), t);
  }

  lemma CountsStep(cnt: int, pc: Pc, cnt': int, pc': Pc, readers: set<Tid>, writers: set<Tid>, t: Tid)
    requires Step(cnt, pc, cnt', pc') && Counts(cnt, readers, writers)
    requires (t in readers <==> pc.Reader?) && (t in writers <==> pc.Writer?) && (pc.ReadSeen? ==> pc.x >= 0)
    ensures Counts(cnt', if pc'.Reader? then readers + {t} else readers - {t},
                   if pc'.Writer? then writers + {t} else writers - {t})
  {
    assert !pc.Reader? ==> readers - {t} == readers;
    if pc.Writer? { Single(writers, t); } else { assert writers - {t} == writers; }
  }

  lemma Single(a: set<Tid>, t: Tid)
    requires t in a && |a| == 1
    ensures a == {t}
  {
    assert |a - {t}| == 0;
  }

  lemma {:induction false} RunKeeps(run: seq<State>, k: nat)
    requires Run(run) && k < |run|
    ensures Inv(run[k])
  {
    if k > 0 {
      RunKeeps(run, k - 1);
      assert Next(run[k - 1], run[k - 1 + 1]);
      var t :| ThreadStep(run[k - 1], run[k], t);
      StepKeeps(run[k - 1], run[k], t);
    }
  }

  /** In every run a writer is alone. */
  lemma Exclusion(run: seq<State>, k: nat, t: Tid, u: Tid)
    requires Run(run) && k < |run|
    requires var pcs := run[k].pcs; t in pcs && u in pcs && t != u && pcs[t].Writer?
    ensures !run[k].pcs[u].Writer? && !run[k].pcs[u].Reader?
  {
    RunKeeps(run, k);
    var s := run[k];
    assert t in Writers(s);
    Single(Writers(s), t);
    assert u !in Writers(s) && u !in Readers(s);
  }

  lemma {:induction false} SubsetSize(a: set<Tid>, b: set<Tid>)
    requires a <= b
    ensures |a| <= |b|
  {
    if a != {} {
      var t :| t in a;
      SubsetSize(a - {t}, b - {t});
    }
  }

  /** The counter never passes the number of threads, so it fits its 32 bits. */
  lemma CounterFits(run: seq<State>, k: nat)
    requires Run(run) && k < |run| && |run[k].pcs| < 0x8000_0000
    ensures -1 <= run[k].cnt < 0x8000_0000
  {
    RunKeeps(run, k);
    SubsetSize(Readers(run[k]), run[k].pcs.Keys);
  }

  /** When nobody holds the lock, an idle thread that is not interrupted gets it in two steps. */
  lemma FreeLockIsTaken(run: seq<State>, t: Tid, read: bool)
    requires Run(run)
    requires var s := run[|run| - 1]; Readers(s) == Writers(s) == {} && t in s.pcs && s.pcs[t].Idle?
    ensures var s := run[|run| - 1];
            var seen := s.(pcs := s.pcs[t := if read then ReadSeen(0) else WriteSeen]);
            var held := State(if read then 1 else -1, s.pcs[t := if read then Reader else Writer]);
            Run(run + [seen, held])
  {
    var s := run[|run| - 1];
    var seen := s.(pcs := s.pcs[t := if read then ReadSeen(0) else WriteSeen]);
    var held := State(if read then 1 else -1, s.pcs[t := if read then Reader else Writer]);
    RunKeeps(run, |run| - 1);
    assert s.cnt == 0;
    assert ThreadStep(s, seen, t) && ThreadStep(seen, held, t);
    var more := run + [seen, held];
    forall i | 0 <= i < |more| - 1 ensures Next(more[i], more[i + 1]) {
      if i < |run| - 1 { assert Next(run[i], run[i + 1]); }
    }
  }
}
