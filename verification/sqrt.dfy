/**
  ex09/sqrt/sqrt.c: one producer commits pairs (n, s) under a reader/writer lock, any number
  of consumers take snapshots and check them.
 */
module SqrtThreads {
  import opened Machine

  /** `s` is the integral square root of `n`. */
  predicate IsRoot(s: int, n: int)
  {
    0 <= s && s * s <= n < (s + 1) * (s + 1)
  }

  lemma RootUnique(s: int, t: int, n: int)
    requires IsRoot(s, n) && IsRoot(t, n)
    ensures s == t
  {
    if s < t { SquareMonotone(s + 1, t); }
    if t < s { SquareMonotone(t + 1, s); }
  }

  lemma SquareMonotone(a: nat, b: nat)
    requires a <= b
    ensures a * a <= b * b
  {
    MulMonotone(a, b, a);
    MulMonotone(a, b, b);
  }

  /** The descending loop of producer_run, lines 148-152. */
  method Root(n: nat) returns (s: int)
    ensures IsRoot(s, n)
  {
    s := n;
    assert n * n + 2 * n + 1 == (n + 1) * (n + 1);
    while s * s > n
      invariant 0 <= s <= n
      invariant n < (s + 1) * (s + 1)
    {
      s := s - 1;
    }
  }

  // ----- the threads

  /** Where the producer is; every shared write is a step of its own. */
  datatype Writer =
    | Choosing                  // about to draw a number
    | Computed(n: int, s: int)  // root found, lock not yet taken
    | Locked(n: int, s: int)    // write lock held, nothing written
    | WroteN(n: int, s: int)    // n written, s not yet
    | WroteBoth(n: int, s: int) // both written, lock still held
    | Done

  /** Where a consumer is; every shared read is a step of its own. */
  datatype Reader =
    | Testing                   // about to read `finished`
    | Entering                  // about to take the read lock
    | Holding                   // read lock held
    | ReadS(s: int)
    | ReadBoth(s: int, n: int)
    | Snapshot(s: int, n: int)  // lock released, check still to do
    | Left

  datatype State = State(
    n: int,
    s: int,
    finished: bool,
    writeLocked: bool,
    readLocks: nat,
    writer: Writer,
    left: nat,
    readers: seq<Reader>,
    errors: seq<nat>)

  datatype Label =
    | Choose(random: nat)
    | WriteLock
    | WriteN
    | WriteS
    | WriteUnlock
    | SetFinished
    | TestFinished(j: nat)
    | ReadLock(j: nat)
    | FetchS(j: nat)
    | FetchN(j: nat)
    | ReadUnlock(j: nat)
    | Check(j: nat)

  predicate InWriteSection(w: Writer) { w.Locked? || w.WroteN? || w.WroteBoth? }

  predicate InReadSection(r: Reader) { r.Holding? || r.ReadS? || r.ReadBoth? }

  /** The number drawn on line 148. */
  function Drawn(random: nat): (n: int)
    ensures 128 <= n < 128 + 4096
  {
    128 + random % 4096
  }

  /** Every number from 128 up to 4223 is drawn, at every 4096th random number. */
  lemma DrawnExactly(random: nat, n: int)
    requires 128 <= n < 4224
    ensures Drawn(random) == n <==> (random - (n - 128)) % 4096 == 0
  {
  }

  /** The producer; `left` is the number of iterations still to do. */
  predicate WriterStep(q: State, l: Label, q': State)
  {
    match l
    case Choose(random) =>
      && q.writer.Choosing? && q.left > 0
      && q'.writer.Computed? && q'.writer.n == Drawn(random) && IsRoot(q'.writer.s, q'.writer.n)
      && q' == q.(writer := q'.writer)
    case WriteLock =>
      && q.writer.Computed? && !q.writeLocked && q.readLocks == 0
      && q' == q.(writeLocked := true, writer := Locked(q.writer.n, q.writer.s))
    case WriteN =>
      q.writer.Locked? && q' == q.(n := q.writer.n, writer := WroteN(q.writer.n, q.writer.s))
    case WriteS =>
      q.writer.WroteN? && q' == q.(s := q.writer.s, writer := WroteBoth(q.writer.n, q.writer.s))
    case WriteUnlock =>
      && q.writer.WroteBoth? && q.left > 0
      && q' == q.(writeLocked := false, writer := Choosing, left := q.left - 1)
    case SetFinished =>
      q.writer.Choosing? && q.left == 0 && q' == q.(finished := true, writer := Done)
    case _ => false
  }

  /** The test of consumer_run, line 110. */
  predicate Mismatch(s: int, n: int)
  {
    s * s > n || n >= (s + 1) * (s + 1)
  }

  predicate ReaderStep(q: State, l: Label, q': State, j: nat)
    requires j < |q.readers| == |q.errors|
  {
    var r := q.readers[j];
    match l
    case TestFinished(_) =>
      r.Testing? && q' == q.(readers := q.readers[j := if q.finished then Left else Entering])
    case ReadLock(_) =>
      r.Entering? && !q.writeLocked && q' == q.(readLocks := q.readLocks + 1, readers := q.readers[j := Holding])
    case FetchS(_) =>
      r.Holding? && q' == q.(readers := q.readers[j := ReadS(q.s)])
    case FetchN(_) =>
      r.ReadS? && q' == q.(readers := q.readers[j := ReadBoth(r.s, q.n)])
    case ReadUnlock(_) =>
      && r.ReadBoth? && q.readLocks > 0
      && q' == q.(readLocks := q.readLocks - 1, readers := q.readers[j := Snapshot(r.s, r.n)])
    case Check(_) =>
      && r.Snapshot?
      && q' == q.(readers := q.readers[j := Testing],
                  errors := q.errors[j := q.errors[j] + if Mismatch(r.s, r.n) then 1 else 0])
    case _ => false
  }

  predicate ByWriter(l: Label)
  {
    l.Choose? || l.WriteLock? || l.WriteN? || l.WriteS? || l.WriteUnlock? || l.SetFinished?
  }

  predicate Step(q: State, l: Label, q': State)
  {
    if ByWriter(l) then WriterStep(q, l, q')
    else l.j < |q.readers| == |q.errors| && ReaderStep(q, l, q', l.j)
  }

  /** Zeroed shared data, every consumer before its first test, `iterations` commits ahead. */
  predicate Start(q: State)
  {
    && q.n == 0 && q.s == 0 && !q.finished && !q.writeLocked && q.readLocks == 0 && q.writer.Choosing?
    && |q.readers| == |q.errors|
    && forall j :: 0 <= j < |q.readers| ==> q.readers[j].Testing? && q.errors[j] == 0
  }

  predicate StepAt(states: seq<State>, labels: seq<Label>, i: nat)
    requires i < |labels| < |states|
  {
    Step(states[i], labels[i], states[i + 1])
  }

  ghost predicate Execution(states: seq<State>, labels: seq<Label>)
  {
    && |states| == |labels| + 1
    && Start(states[0])
    && forall i :: 0 <= i < |labels| ==> StepAt(states, labels, i)
  }

  // ----- the invariant

  function Sections(rs: seq<Reader>): (n: nat)
  {
    if rs == [] then 0 else Sections(rs[..|rs| - 1]) + (if InReadSection(rs[|rs| - 1]) then 1 else 0)
  }

  lemma {:induction false} SectionsUpdate(rs: seq<Reader>, j: nat, r: Reader)
    requires j < |rs|
    ensures Sections(rs[j := r])
            == Sections(rs) - (if InReadSection(rs[j]) then 1 else 0) + (if InReadSection(r) then 1 else 0)
  {
    var n := |rs| - 1;
    if j < n {
      assert rs[j := r][..n] == rs[..n][j := r];
      SectionsUpdate(rs[..n], j, r);
    } else {
      assert rs[j := r][..n] == rs[..n];
    }
  }

  lemma {:induction false} SectionsPositive(rs: seq<Reader>, j: nat)
    requires j < |rs| && InReadSection(rs[j])
    ensures Sections(rs) > 0
  {
    if j < |rs| - 1 { SectionsPositive(rs[..|rs| - 1], j); }
  }

  lemma {:induction false} NoSections(rs: seq<Reader>)
    requires forall j :: 0 <= j < |rs| ==> rs[j].Testing?
    ensures Sections(rs) == 0
  {
    if rs != [] { NoSections(rs[..|rs| - 1]); }
  }

  /** Reader/writer exclusion, kept by the lock counters. */
  ghost predicate Exclusion(q: State)
  {
    && q.readLocks == Sections(q.readers)
    && (q.writeLocked <==> InWriteSection(q.writer))
    && (q.writeLocked ==> q.readLocks == 0)
  }

  /** The shared pair is a root except between the two writes; the writer's own pair always is. */
  ghost predicate Consistent(q: State)
  {
    && (q.writer.Computed? || InWriteSection(q.writer) ==> IsRoot(q.writer.s, q.writer.n))
    && (q.writer.WroteN? ==> q.n == q.writer.n)
    && (q.writer.WroteBoth? ==> q.n == q.writer.n && q.s == q.writer.s)
    && (!q.writer.WroteN? ==> IsRoot(q.s, q.n))
  }

  /** What a reader has fetched so far agrees with the shared pair while it holds the lock. */
  ghost predicate ReaderGood(q: State, r: Reader)
  {
    match r
    case ReadS(s) => s == q.s
    case ReadBoth(s, n) => s == q.s && n == q.n
    case Snapshot(s, n) => IsRoot(s, n)
    case _ => true
  }

  ghost predicate ReadersGood(q: State)
  {
    && |q.readers| == |q.errors|
    && (forall j :: 0 <= j < |q.readers| ==> ReaderGood(q, q.readers[j]))
    && (forall j :: 0 <= j < |q.errors| ==> q.errors[j] == 0)
  }

  ghost predicate Inv(q: State)
  {
    Exclusion(q) && Consistent(q) && ReadersGood(q)
  }

  /** While the writer is in its section no reader is in one. */
  lemma Excluded(q: State, j: nat)
    requires Exclusion(q) && q.writeLocked && j < |q.readers|
    ensures !InReadSection(q.readers[j])
  {
    if InReadSection(q.readers[j]) { SectionsPositive(q.readers, j); }
  }

  lemma WriterKeepsInv(q: State, l: Label, q': State)
    requires Inv(q) && ByWriter(l) && WriterStep(q, l, q')
    ensures Inv(q')
  {
    hide IsRoot;
    forall j | 0 <= j < |q.readers|
      ensures ReaderGood(q', q'.readers[j])
    {
      assert ReaderGood(q, q.readers[j]);
      if q.writeLocked { Excluded(q, j); }
    }
  }

  lemma ReaderKeepsInv(q: State, l: Label, q': State)
    requires Inv(q) && !ByWriter(l) && l.j < |q.readers| && ReaderStep(q, l, q', l.j)
    ensures Inv(q')
  {
    var r := q.readers[l.j];
    SectionsUpdate(q.readers, l.j, q'.readers[l.j]);
    assert ReaderGood(q, r);
    if q.writeLocked { Excluded(q, l.j); }
    assert r.Snapshot? ==> !Mismatch(r.s, r.n);
    hide IsRoot, Mismatch;
    forall j | 0 <= j < |q.readers|
      ensures ReaderGood(q', q'.readers[j])
    {
      assert ReaderGood(q, q.readers[j]);
    }
  }

  /** The test catches every pair that is not a root, and only those, whatever the pair. */
  lemma CheckIsExact(s: int, n: int)
    ensures Mismatch(s, n) <==> !IsRoot(s, n)
  {
    if s < 0 {
      SquareMonotone(0 - s - 1, 0 - s);
      assert (0 - s) * (0 - s) == s * s && (0 - s - 1) * (0 - s - 1) == (s + 1) * (s + 1);
    }
  }

  /** From any state at all, a check counts an error exactly when its snapshot is not a root. */
  lemma CheckCounts(q: State, l: Label, q': State, j: nat)
    requires Step(q, l, q') && l == Check(j)
    ensures j < |q.readers| == |q.errors| && q.readers[j].Snapshot?
    ensures var r := q.readers[j];
            q'.errors == q.errors[j := q.errors[j] + if IsRoot(r.s, r.n) then 0 else 1]
  {
    CheckIsExact(q.readers[j].s, q.readers[j].n);
  }

  /**
    In every interleaving, with the two commit writes and the two snapshot reads as separate
    steps, every snapshot (s, n) a consumer checks satisfies s*s <= n < (s+1)*(s+1), so no
    consumer ever counts an error.
   */
  lemma {:induction false} NoErrors(states: seq<State>, labels: seq<Label>, i: nat)
    requires Execution(states, labels) && i < |states|
    ensures Inv(states[i])
    ensures forall j :: 0 <= j < |states[i].readers| && states[i].readers[j].Snapshot? ==>
                          IsRoot(states[i].readers[j].s, states[i].readers[j].n)
    ensures forall j :: 0 <= j < |states[i].errors| ==> states[i].errors[j] == 0
  {
    if i == 0 {
      NoSections(states[0].readers);
    } else {
      NoErrors(states, labels, i - 1);
      assert StepAt(states, labels, i - 1);
      if ByWriter(labels[i - 1]) {
        WriterKeepsInv(states[i - 1], labels[i - 1], states[i]);
      } else {
        ReaderKeepsInv(states[i - 1], labels[i - 1], states[i]);
      }
    }
    forall j | 0 <= j < |states[i].readers| && states[i].readers[j].Snapshot?
      ensures IsRoot(states[i].readers[j].s, states[i].readers[j].n)
    {
      assert ReaderGood(states[i], states[i].readers[j]);
    }
  }

  /** Readers and the writer are never inside their sections together. */
  lemma ReadersWriterExclusion(states: seq<State>, labels: seq<Label>, i: nat, j: nat)
    requires Execution(states, labels) && i < |states| && j < |states[i].readers|
    ensures !(InWriteSection(states[i].writer) && InReadSection(states[i].readers[j]))
  {
    NoErrors(states, labels, i);
    if InWriteSection(states[i].writer) { Excluded(states[i], j); }
  }

  // ----- what every thread does, from the labels alone

  /** The labels of consumer `j`, in order. */
  function Own(labels: seq<Label>, j: nat): (own: seq<Label>)
  {
    if labels == [] then []
    else
      var n := |labels| - 1;
      Own(labels[..n], j) + (if By(labels[n], j) then [labels[n]] else [])
  }

  predicate By(l: Label, j: nat)
  {
    !ByWriter(l) && l.j == j
  }

  /** One round of the consumer's loop: test, lock, read s, read n, unlock, check. */
  const ROUND: nat := 6

  predicate IsStage(l: Label, stage: nat)
  {
    match stage
    case 0 => l.TestFinished?
    case 1 => l.ReadLock?
    case 2 => l.FetchS?
    case 3 => l.FetchN?
    case 4 => l.ReadUnlock?
    case 5 => l.Check?
    case _ => false
  }

  /** Where a consumer stands after `n` labels of its own. */
  predicate Stands(r: Reader, n: nat)
  {
    match r
    case Testing => n % ROUND == 0
    case Entering => n % ROUND == 1
    case Left => n % ROUND == 1
    case Holding => n % ROUND == 2
    case ReadS(_) => n % ROUND == 3
    case ReadBoth(_, _) => n % ROUND == 4
    case Snapshot(_, _) => n % ROUND == 5
  }

  predicate InRounds(own: seq<Label>)
  {
    forall k :: 0 <= k < |own| ==> IsStage(own[k], k % ROUND)
  }

  lemma StageStep(q: State, l: Label, q': State, j: nat, n: nat)
    requires Step(q, l, q') && j < |q.readers| && Stands(q.readers[j], n)
    ensures |q'.readers| == |q.readers|
    ensures By(l, j) ==> IsStage(l, n % ROUND) && Stands(q'.readers[j], n + 1)
    ensures !By(l, j) ==> q'.readers[j] == q.readers[j]
  {
    hide IsRoot, Mismatch;
  }

  lemma StepOf(states: seq<State>, labels: seq<Label>, i: nat)
    requires Execution(states, labels) && i < |labels|
    ensures Step(states[i], labels[i], states[i + 1]) && labels[..i + 1] == labels[..i] + [labels[i]]
  {
    assert StepAt(states, labels, i);
  }

  lemma OwnSnoc(labels: seq<Label>, l: Label, j: nat)
    ensures Own(labels + [l], j) == Own(labels, j) + (if By(l, j) then [l] else [])
  {
    assert (labels + [l])[..|labels|] == labels;
  }

  /**
    Every consumer goes through its loop round by round: its labels are test, lock, read s, read
    n, unlock and check, over and over, so each test but the last is followed by exactly one
    check before the next.
   */
  lemma {:induction false} ConsumersGoRound(states: seq<State>, labels: seq<Label>, i: nat, j: nat)
    requires Execution(states, labels) && i < |states| && j < |states[0].readers|
    ensures |states[i].readers| == |states[0].readers|
    ensures InRounds(Own(labels[..i], j)) && Stands(states[i].readers[j], |Own(labels[..i], j)|)
  {
    if i == 0 {
      assert labels[..0] == [];
    } else {
      hide Step, IsStage, Stands, By;
      ConsumersGoRound(states, labels, i - 1, j);
      StepOf(states, labels, i - 1);
      OwnSnoc(labels[..i - 1], labels[i - 1], j);
      StageStep(states[i - 1], labels[i - 1], states[i], j, |Own(labels[..i - 1], j)|);
    }
  }

  /** Has the producer announced its end? */
  predicate Announced(labels: seq<Label>)
  {
    exists k :: 0 <= k < |labels| && labels[k].SetFinished?
  }

  lemma FlagStep(q: State, l: Label, q': State)
    requires Step(q, l, q')
    ensures q'.finished == (q.finished || l.SetFinished?)
  {
  }

  lemma AnnouncedSnoc(labels: seq<Label>, l: Label)
    ensures Announced(labels + [l]) == (Announced(labels) || l.SetFinished?)
  {
    var more := labels + [l];
    assert more[|labels|] == l && forall k :: 0 <= k < |labels| ==> more[k] == labels[k];
  }

  lemma {:induction false} FinishedIffAnnounced(states: seq<State>, labels: seq<Label>, i: nat)
    requires Execution(states, labels) && i < |states|
    ensures states[i].finished <==> Announced(labels[..i])
  {
    if i > 0 {
      hide Step, Announced;
      FinishedIffAnnounced(states, labels, i - 1);
      StepOf(states, labels, i - 1);
      FlagStep(states[i - 1], labels[i - 1], states[i]);
      AnnouncedSnoc(labels[..i - 1], labels[i - 1]);
    }
  }

  lemma TestStep(q: State, l: Label, q': State, j: nat)
    requires Step(q, l, q') && j < |q.readers| && By(l, j)
    ensures |q'.readers| == |q.readers| && !q.readers[j].Left?
    ensures if l.TestFinished? then q'.readers[j] == (if q.finished then Left else Entering)
            else !q'.readers[j].Left?
  {
  }

  /** A test ends the loop if and only if the producer has announced its end. */
  lemma TestDecides(states: seq<State>, labels: seq<Label>, i: nat, j: nat)
    requires Execution(states, labels) && i < |labels| && labels[i] == TestFinished(j)
    requires j < |states[0].readers|
    ensures |states[i + 1].readers| == |states[0].readers|
    ensures states[i + 1].readers[j] == if Announced(labels[..i]) then Left else Entering
  {
    hide Step, Announced, Stands, InRounds;
    ConsumersGoRound(states, labels, i, j);
    StepOf(states, labels, i);
    TestStep(states[i], labels[i], states[i + 1], j);
    FinishedIffAnnounced(states, labels, i);
  }

  /** The number of the last label of consumer `j`. */
  predicate LastOf(labels: seq<Label>, k: nat, j: nat)
  {
    k < |labels| && By(labels[k], j) && forall m :: k < m < |labels| ==> !By(labels[m], j)
  }

  /** The last label of consumer `j` is a test made after the announcement. */
  ghost predicate SawEnd(labels: seq<Label>, j: nat)
  {
    exists k: nat :: LastOf(labels, k, j) && labels[k].TestFinished? && Announced(labels[..k])
  }

  lemma SawEndSnoc(labels: seq<Label>, l: Label, j: nat)
    ensures SawEnd(labels + [l], j) == if By(l, j) then l.TestFinished? && Announced(labels) else SawEnd(labels, j)
  {
    hide Announced, By, LastOf;
    var more, n := labels + [l], |labels|;
    assert more[n] == l && more[..n] == labels;
    assert forall k: nat :: k < n ==> more[k] == labels[k] && more[..k] == labels[..k];
    if By(l, j) {
      LastIsNew(labels, l, j);
    } else {
      LastIsOld(labels, l, j);
      LastInRange(labels, j);
    }
  }

  lemma LastInRange(labels: seq<Label>, j: nat)
    ensures forall k: nat :: LastOf(labels, k, j) ==> k < |labels|
  {
  }

  /**
    A consumer has left if and only if its last label is a test made after the announcement. It
    has no label after that: no further lock, and no snapshot.
   */
  lemma {:induction false} LeavesExactly(states: seq<State>, labels: seq<Label>, i: nat, j: nat)
    requires Execution(states, labels) && i < |states| && j < |states[0].readers|
    ensures |states[i].readers| == |states[0].readers|
    ensures states[i].readers[j].Left? <==> SawEnd(labels[..i], j)
  {
    if i == 0 {
      assert labels[..0] == [];
    } else {
      hide Step, Announced, Stands, InRounds, By, SawEnd;
      var before, l := labels[..i - 1], labels[i - 1];
      LeavesExactly(states, labels, i - 1, j);
      ConsumersGoRound(states, labels, i - 1, j);
      StepOf(states, labels, i - 1);
      SawEndSnoc(before, l, j);
      StageStep(states[i - 1], l, states[i], j, |Own(before, j)|);
      if By(l, j) {
        TestStep(states[i - 1], l, states[i], j);
        FinishedIffAnnounced(states, labels, i - 1);
      }
    }
  }

  lemma LastIsNew(labels: seq<Label>, l: Label, j: nat)
    requires By(l, j)
    ensures forall k: nat :: LastOf(labels + [l], k, j) <==> k == |labels|
  {
    var more := labels + [l];
    forall k: nat
      ensures LastOf(more, k, j) <==> k == |labels|
    {
      assert k < |labels| ==> By(more[|labels|], j);
    }
  }

  lemma LastIsOld(labels: seq<Label>, l: Label, j: nat)
    requires !By(l, j)
    ensures forall k: nat :: LastOf(labels + [l], k, j) <==> LastOf(labels, k, j)
  {
    var more := labels + [l];
    forall k: nat
      ensures LastOf(more, k, j) <==> LastOf(labels, k, j)
    {
      assert forall m :: 0 <= m < |labels| ==> more[m] == labels[m];
    }
  }

  // ----- the producer

  /** The labels of the producer, in order. */
  function Producer(labels: seq<Label>): (own: seq<Label>)
  {
    if labels == [] then []
    else
      var n := |labels| - 1;
      Producer(labels[..n]) + (if ByWriter(labels[n]) then [labels[n]] else [])
  }

  /** One iteration: draw, lock, write n, write s, unlock. */
  const ITERATION: nat := 5

  predicate IsWriterStage(l: Label, stage: nat)
  {
    match stage
    case 0 => l.Choose?
    case 1 => l.WriteLock?
    case 2 => l.WriteN?
    case 3 => l.WriteS?
    case 4 => l.WriteUnlock?
    case _ => false
  }

  predicate InIterations(own: seq<Label>, iterations: nat)
  {
    && |own| <= ITERATION * iterations + 1
    && forall k :: 0 <= k < |own| ==>
                     if k < ITERATION * iterations then IsWriterStage(own[k], k % ITERATION) else own[k].SetFinished?
  }

  /** How far into its iteration the producer is. */
  function Stage(w: Writer): (n: nat)
  {
    match w
    case Choosing => 0
    case Computed(_, _) => 1
    case Locked(_, _) => 2
    case WroteN(_, _) => 3
    case WroteBoth(_, _) => 4
    case Done => 1
  }

  /** Where the producer stands, and the numbers it carries and has shared, by its labels. */
  predicate WriterStands(q: State, own: seq<Label>, iterations: nat)
  {
    && q.left <= iterations
    && |own| == ITERATION * (iterations - q.left) + Stage(q.writer)
    && (q.writer.Done? ==> q.left == 0)
    && (!q.writer.Choosing? && !q.writer.Done? ==> q.left > 0 && q.writer.n == DrawnAt(own, iterations - q.left))
    && (!q.writer.WroteN? && !q.writer.WroteBoth? ==> q.n == SharedAt(own, iterations - q.left))
    && (q.writer.WroteN? || q.writer.WroteBoth? ==> q.n == q.writer.n)
  }

  /** The number drawn in iteration `r`. */
  function DrawnAt(own: seq<Label>, r: nat): (n: int)
  {
    if ITERATION * r < |own| && own[ITERATION * r].Choose? then Drawn(own[ITERATION * r].random) else 0
  }

  /** The number shared after `r` iterations: the last one drawn, zero before the first. */
  function SharedAt(own: seq<Label>, r: nat): (n: int)
  {
    if r == 0 then 0 else DrawnAt(own, r - 1)
  }

  lemma DrawnSnoc(own: seq<Label>, l: Label, r: nat)
    requires ITERATION * r < |own|
    ensures DrawnAt(own + [l], r) == DrawnAt(own, r)
  {
  }

  lemma WriterMoves(q: State, l: Label, q': State, own: seq<Label>, iterations: nat)
    requires WriterStep(q, l, q') && WriterStands(q, own, iterations) && InIterations(own, iterations)
    ensures WriterStands(q', own + [l], iterations) && InIterations(own + [l], iterations)
  {
    hide IsRoot, Drawn;
    var r := iterations - q.left;
    if r > 0 { DrawnSnoc(own, l, r - 1); }
    if !l.Choose? && !l.SetFinished? { DrawnSnoc(own, l, r); }
  }

  lemma ReaderLeavesWriter(q: State, l: Label, q': State)
    requires Step(q, l, q') && !ByWriter(l)
    ensures q'.writer == q.writer && q'.left == q.left && q'.n == q.n && q'.s == q.s
  {
  }

  lemma ProducerSnoc(labels: seq<Label>, l: Label)
    ensures Producer(labels + [l]) == Producer(labels) + (if ByWriter(l) then [l] else [])
  {
    assert (labels + [l])[..|labels|] == labels;
  }

  /**
    The producer draws, locks, writes n, writes s and unlocks, exactly as many times as it has
    iterations, and announces the end after the last. Outside its write section the shared
    number is the one drawn last.
   */
  lemma {:induction false} ProducerIterates(states: seq<State>, labels: seq<Label>, i: nat)
    requires Execution(states, labels) && i < |states|
    ensures InIterations(Producer(labels[..i]), states[0].left)
    ensures WriterStands(states[i], Producer(labels[..i]), states[0].left)
  {
    if i == 0 {
      assert labels[..0] == [];
    } else {
      hide WriterStep, ReaderStep, InIterations, WriterStands;
      var before, l := labels[..i - 1], labels[i - 1];
      ProducerIterates(states, labels, i - 1);
      StepOf(states, labels, i - 1);
      ProducerSnoc(before, l);
      if ByWriter(l) {
        WriterMoves(states[i - 1], l, states[i], Producer(before), states[0].left);
      } else {
        ReaderLeavesWriter(states[i - 1], l, states[i]);
        SameStand(states[i - 1], states[i], Producer(before), states[0].left);
      }
    }
  }

  lemma SameStand(q: State, q': State, own: seq<Label>, iterations: nat)
    requires WriterStands(q, own, iterations) && q'.writer == q.writer && q'.left == q.left && q'.n == q.n
    ensures WriterStands(q', own, iterations)
  {
  }

  // ----- nobody is stuck but by the lock

  /** A consumer that has not left can take its next step, waiting only for the writer to unlock. */
  lemma ConsumerCanStep(q: State, j: nat) returns (l: Label, q': State)
    requires Inv(q) && j < |q.readers| && !q.readers[j].Left?
    requires q.readers[j].Entering? ==> !q.writeLocked
    ensures Step(q, l, q') && By(l, j)
  {
    hide IsRoot, Mismatch;
    var r := q.readers[j];
    if InReadSection(r) { SectionsPositive(q.readers, j); }
    match r
    case Testing =>
      l, q' := TestFinished(j), q.(readers := q.readers[j := if q.finished then Left else Entering]);
    case Entering =>
      l, q' := ReadLock(j), q.(readLocks := q.readLocks + 1, readers := q.readers[j := Holding]);
    case Holding =>
      l, q' := FetchS(j), q.(readers := q.readers[j := ReadS(q.s)]);
    case ReadS(s) =>
      l, q' := FetchN(j), q.(readers := q.readers[j := ReadBoth(s, q.n)]);
    case ReadBoth(s, n) =>
      l, q' := ReadUnlock(j), q.(readLocks := q.readLocks - 1, readers := q.readers[j := Snapshot(s, n)]);
    case Snapshot(s, n) =>
      l := Check(j);
      q' := q.(readers := q.readers[j := Testing],
               errors := q.errors[j := q.errors[j] + if Mismatch(s, n) then 1 else 0]);
  }

  /** Neither can the producer be, but by readers, until it has announced the end. */
  lemma ProducerCanStep(q: State, random: nat) returns (l: Label, q': State)
    requires Inv(q) && !q.writer.Done? && (q.writer.Computed? ==> q.readLocks == 0)
    requires !q.writer.Choosing? ==> q.left > 0
    ensures Step(q, l, q') && ByWriter(l)
  {
    hide IsRoot;
    match q.writer
    case Choosing =>
      if q.left > 0 {
        var n := Drawn(random);
        var s := RootOf(n);
        l, q' := Choose(random), q.(writer := Computed(n, s));
      } else {
        l, q' := SetFinished, q.(finished := true, writer := Done);
      }
    case Computed(n, s) =>
      l, q' := WriteLock, q.(writeLocked := true, writer := Locked(n, s));
    case Locked(n, s) =>
      l, q' := WriteN, q.(n := n, writer := WroteN(n, s));
    case WroteN(n, s) =>
      l, q' := WriteS, q.(s := s, writer := WroteBoth(n, s));
    case WroteBoth(_, _) =>
      l, q' := WriteUnlock, q.(writeLocked := false, writer := Choosing, left := q.left - 1);
  }

  lemma {:induction false} RootFrom(n: nat, s: nat) returns (r: int)
    requires n < (s + 1) * (s + 1)
    ensures IsRoot(r, n)
  {
    if s * s <= n {
      r := s;
    } else {
      r := RootFrom(n, s - 1);
    }
  }

  lemma RootOf(n: nat) returns (r: int)
    ensures IsRoot(r, n)
  {
    assert (n + 1) * (n + 1) == n * n + 2 * n + 1;
    r := RootFrom(n, n);
  }
}
