/** The ticket spinlock, stepped through by any number of contenders in any interleaving. */
module TicketLock {
  import opened Bits
  import opened Seqs

  datatype Phase = Idle | Spinning(mine: nat) | Holding(mine: nat)

  /** struct spinlock_irq with the position of every contender in acquire and release */
  datatype Lock = Lock(ticket: nat, turn: nat, phase: map<nat, Phase>)

  datatype Step = Take(who: nat) | Spin(who: nat) | Enter(who: nat) | Release(who: nat)

  lemma AddAdd(a: nat, i: nat, j: nat)
    ensures Add(Add(a, i), j) == Add(a, i + j)
  {
    var q := (a + i) / U64;
    var r := ((a + i) % U64 + j);
    ModUnique(a + (i + j), U64, q + r / U64, r % U64);
  }

  predicate Start(s: Lock) {
    s.ticket == 0 && s.turn == 0 && forall c | c in s.phase :: s.phase[c] == Idle
  }

  /** One atomic action: fetch-and-add of the ticket, one turn of the spin loop, fetch-and-add of the turn */
  predicate Next(s: Lock, step: Step, s': Lock) {
    var c := step.who;
    && c in s.phase
    && match step
       case Take(_) =>
         s.phase[c] == Idle && s' == Lock(Add(s.ticket, 1), s.turn, s.phase[c := Spinning(s.ticket)])
       case Spin(_) =>
         s.phase[c].Spinning? && s.phase[c].mine != s.turn && s' == s
       case Enter(_) =>
         s.phase[c].Spinning? && s.phase[c].mine == s.turn && s' == s.(phase := s.phase[c := Holding(s.phase[c].mine)])
       case Release(_) =>
         s.phase[c].Holding? && s' == Lock(s.ticket, Add(s.turn, 1), s.phase[c := Idle])
  }

  ghost predicate Run(states: seq<Lock>, steps: seq<Step>) {
    && |states| == |steps| + 1 && Start(states[0])
    && forall i | 0 <= i < |steps| :: Next(states[i], steps[i], states[i + 1])
  }

  /** The contenders that took a ticket, in order */
  function Takers(steps: seq<Step>): (r: seq<nat>) {
    if steps == [] then []
    else Takers(steps[..|steps| - 1]) + (var e := steps[|steps| - 1]; if e.Take? then [e.who] else [])
  }

  /** The contenders that entered, in order */
  function Entrants(steps: seq<Step>): (r: seq<nat>) {
    if steps == [] then []
    else Entrants(steps[..|steps| - 1]) + (var e := steps[|steps| - 1]; if e.Enter? then [e.who] else [])
  }

  /** q lists the contenders that hold a ticket: the tickets are turn, turn + 1, ... up to ticket - 1. */
  ghost predicate Queue(s: Lock, q: seq<nat>) {
    && s.turn < U64 && Distinct(q)
    && (forall c | c in s.phase :: s.phase[c] == Idle <==> c !in q)
    && (forall i | 0 <= i < |q| ::
          q[i] in s.phase && s.phase[q[i]] != Idle && s.phase[q[i]].mine == Add(s.turn, i))
    && (forall i | 1 <= i < |q| :: s.phase[q[i]].Spinning?)
    && s.ticket == Add(s.turn, |q|)
  }

  lemma {:induction false} QueueBound(q: seq<nat>, all: set<nat>)
    requires Distinct(q) && forall i | 0 <= i < |q| :: q[i] in all
    ensures |q| <= |all|
  {
    if q != [] {
      var last := q[|q| - 1];
      var rest := q[..|q| - 1];
      forall i | 0 <= i < |rest| ensures rest[i] in all - {last} { assert rest[i] == q[i]; }
      QueueBound(rest, all - {last});
    }
  }

  /** With at most 2^64 contenders only the front of the queue sees its own turn. */
  lemma OnlyFront(s: Lock, q: seq<nat>, i: nat)
    requires Queue(s, q) && |s.phase.Keys| <= U64 && i < |q| && s.phase[q[i]].mine == s.turn
    ensures i == 0
  {
    QueueBound(q, s.phase.Keys);
  }

  ghost function NextQueue(q: seq<nat>, step: Step): (r: seq<nat>) {
    match step
    case Take(c) => q + [c]
    case Release(_) => if q == [] then q else q[1..]
    case _ => q
  }

  /** The holder, as a sequence of at most one contender */
  ghost function Front(s: Lock, q: seq<nat>): (r: seq<nat>) {
    if q != [] && q[0] in s.phase && s.phase[q[0]].Holding? then [q[0]] else []
  }

  lemma TakeStep(s: Lock, c: nat, s': Lock, q: seq<nat>)
    requires Queue(s, q) && Next(s, Take(c), s')
    ensures c !in q && Queue(s', q + [c]) && Front(s', q + [c]) == Front(s, q)
  {
    hide Add;
    assert c !in q;
    AddAdd(s.turn, |q|, 1);
    forall i | 0 <= i < |q + [c]|
      ensures (q + [c])[i] in s'.phase && s'.phase[(q + [c])[i]] != Idle
      ensures s'.phase[(q + [c])[i]].mine == Add(s.turn, i)
    {}
  }

  lemma EnterStep(s: Lock, c: nat, s': Lock, q: seq<nat>)
    requires Queue(s, q) && |s.phase.Keys| <= U64 && Next(s, Enter(c), s')
    ensures q != [] && c == q[0] && Queue(s', q) && Front(s, q) == [] && Front(s', q) == [c]
  {
    assert c in q;
    var i: nat :| i < |q| && q[i] == c;
    OnlyFront(s, q, i);
  }

  lemma TailMembers(q: seq<nat>)
    requires Distinct(q) && q != []
    ensures forall x: nat :: x in q[1..] <==> x in q && x != q[0]
    ensures Distinct(q[1..])
  {
    forall x: nat | x in q && x != q[0] ensures x in q[1..] {
      var j: nat :| j < |q| && q[j] == x;
      assert q[1..][j - 1] == x;
    }
  }

  lemma ReleaseStep(s: Lock, c: nat, s': Lock, q: seq<nat>)
    requires Queue(s, q) && Next(s, Release(c), s')
    ensures q != [] && c == q[0] && Queue(s', q[1..]) && Front(s, q) == [c] && Front(s', q[1..]) == []
  {
    hide Add;
    assert c in q;
    var i: nat :| i < |q| && q[i] == c;
    assert i == 0;
    var r := q[1..];
    TailMembers(q);
    forall j | 0 <= j < |r|
      ensures r[j] in s'.phase && s'.phase[r[j]].Spinning? && s'.phase[r[j]].mine == Add(s'.turn, j)
    {
      assert r[j] == q[j + 1];
      AddAdd(s.turn, 1, j);
    }
    AddAdd(s.turn, 1, |r|);
  }

  lemma QueueStep(s: Lock, step: Step, s': Lock, q: seq<nat>)
    requires Queue(s, q) && |s.phase.Keys| <= U64 && Next(s, step, s')
    ensures Queue(s', NextQueue(q, step)) && s'.phase.Keys == s.phase.Keys
    ensures step.Release? || step.Enter? ==> q != [] && step.who == q[0]
    ensures step.Release? ==> Front(s, q) == [step.who] && Front(s', q[1..]) == []
    ensures step.Enter? ==> Front(s, q) == [] && Front(s', q) == [step.who]
    ensures step.Spin? ==> s' == s
    ensures step.Take? ==> Front(s', q + [step.who]) == Front(s, q)
  {
    hide Queue, Front;
    match step
    case Take(c) => TakeStep(s, c, s', q);
    case Spin(_) =>
    case Enter(c) => EnterStep(s, c, s', q);
    case Release(c) => ReleaseStep(s, c, s', q);
  }

  ghost function QueueAfter(steps: seq<Step>): (r: seq<nat>) {
    if steps == [] then [] else NextQueue(QueueAfter(steps[..|steps| - 1]), steps[|steps| - 1])
  }

  lemma RunPrefix(states: seq<Lock>, steps: seq<Step>)
    requires Run(states, steps) && steps != []
    ensures Run(states[..|steps|], steps[..|steps| - 1])
    ensures Next(states[|steps| - 1], steps[|steps| - 1], states[|steps|])
  {
    forall i | 0 <= i < |steps| - 1
      ensures Next(states[..|steps|][i], steps[..|steps| - 1][i], states[..|steps|][i + 1])
    {
      assert Next(states[i], steps[i], states[i + 1]);
    }
  }

  /** In every run the outstanding tickets are exactly the contiguous range from turn to ticket. */
  lemma {:induction false} RunQueue(states: seq<Lock>, steps: seq<Step>)
    requires Run(states, steps) && |states[0].phase.Keys| <= U64
    ensures Queue(states[|steps|], QueueAfter(steps)) && states[|steps|].phase.Keys == states[0].phase.Keys
    decreases |steps|
  {
    if steps != [] {
      var n := |steps| - 1;
      RunPrefix(states, steps);
      RunQueue(states[..|steps|], steps[..n]);
      QueueStep(states[n], steps[n], states[n + 1], QueueAfter(steps[..n]));
    }
  }

  /** Mutual exclusion in every run, for up to 2^64 contenders. */
  lemma MutualExclusion(states: seq<Lock>, steps: seq<Step>, a: nat, b: nat)
    requires Run(states, steps) && |states[0].phase.Keys| <= U64
    requires var s := states[|steps|]; a in s.phase && b in s.phase && s.phase[a].Holding? && s.phase[b].Holding?
    ensures a == b
  {
    RunQueue(states, steps);
    var q := QueueAfter(steps);
    assert a in q && b in q;
    assert a == q[0] && b == q[0];
  }

  /** A free lock never refuses the contender whose turn it is: the front either holds or may enter. */
  lemma FrontCanMove(states: seq<Lock>, steps: seq<Step>)
    requires Run(states, steps) && |states[0].phase.Keys| <= U64 && QueueAfter(steps) != []
    ensures var s, c := states[|steps|], QueueAfter(steps)[0];
            c in s.phase && (s.phase[c].Holding? || exists s' :: Next(s, Enter(c), s'))
  {
    RunQueue(states, steps);
    var s, c := states[|steps|], QueueAfter(steps)[0];
    if s.phase[c].Spinning? {
      assert Next(s, Enter(c), s.(phase := s.phase[c := Holding(s.phase[c].mine)]));
    }
  }

  /** First come, first served: the order of entry is the order of the tickets. */
  lemma FirstComeFirstServed(states: seq<Lock>, steps: seq<Step>)
    requires Run(states, steps) && |states[0].phase.Keys| <= U64
    ensures Entrants(steps) <= Takers(steps)
  {
    var gone := Served(states, steps);
  }

  lemma {:induction false} Served(states: seq<Lock>, steps: seq<Step>) returns (gone: seq<nat>)
    requires Run(states, steps) && |states[0].phase.Keys| <= U64
    ensures Takers(steps) == gone + QueueAfter(steps)
    ensures Entrants(steps) == gone + Front(states[|steps|], QueueAfter(steps))
    decreases |steps|
  {
    if steps == [] {
      gone := [];
    } else {
      var n := |steps| - 1;
      RunPrefix(states, steps);
      var before, s := states[..n + 1], states[n];
      assert before[n] == s && |steps[..n]| == n;
      gone := Served(before, steps[..n]);
      RunQueue(before, steps[..n]);
      gone := ServedStep(s, steps[n], states[n + 1], QueueAfter(steps[..n]), gone);
    }
  }

  /** A release moves the front of the queue to the contenders that are done. */
  lemma ServedStep(s: Lock, e: Step, s': Lock, q: seq<nat>, before: seq<nat>) returns (gone: seq<nat>)
    requires Queue(s, q) && |s.phase.Keys| <= U64 && Next(s, e, s')
    ensures before + q + (if e.Take? then [e.who] else []) == gone + NextQueue(q, e)
    ensures before + Front(s, q) + (if e.Enter? then [e.who] else []) == gone + Front(s', NextQueue(q, e))
  {
    hide Queue, Front, Next;
    QueueStep(s, e, s', q);
    gone := if e.Release? then before + [e.who] else before;
    if e.Release? {
      assert q == [e.who] + q[1..];
      assert before + q == before + [e.who] + q[1..];
    }
  }

  // ----- more contenders than tickets -----

  /** All contenders idle, then the first k of ids have taken a ticket */
  ghost function AfterTakes(all: set<nat>, ids: seq<nat>, k: nat): (s: Lock)
    requires k <= |ids|
  {
    if k == 0 then Lock(0, 0, map c | c in all :: Idle)
    else
      var s := AfterTakes(all, ids, k - 1);
      Lock(Add(s.ticket, 1), 0, s.phase[ids[k - 1] := Spinning(s.ticket)])
  }

  lemma {:induction false} TakesPhase(all: set<nat>, ids: seq<nat>, k: nat)
    requires Distinct(ids) && k <= |ids| && forall i | 0 <= i < |ids| :: ids[i] in all
    ensures var s := AfterTakes(all, ids, k);
            && s.ticket == Add(0, k) && s.turn == 0 && s.phase.Keys == all
            && forall i | 0 <= i < |ids| :: s.phase[ids[i]] == if i < k then Spinning(Add(0, i)) else Idle
  {
    hide Add;
    if k > 0 {
      TakesPhase(all, ids, k - 1);
      AddAdd(0, k - 1, 1);
    } else {
      AddZero();
    }
  }

  lemma AddZero()
    ensures Add(0, 0) == 0 && Add(0, U64) == 0
  {
  }

  /** With more than 2^64 contenders two of them draw the same ticket and both enter. */
  lemma ExclusionBreaks(all: set<nat>, ids: seq<nat>) returns (states: seq<Lock>, steps: seq<Step>)
    requires Distinct(ids) && |ids| == U64 + 1 && forall i | 0 <= i < |ids| :: ids[i] in all
    ensures Run(states, steps) && states[0].phase.Keys == all
    ensures var s, a, b := states[|steps|], ids[0], ids[U64];
            a != b && a in s.phase && b in s.phase && s.phase[a].Holding? && s.phase[b].Holding?
  {
    hide Add;
    var n := |ids|;
    var takes := seq(n + 1, k requires 0 <= k <= n => AfterTakes(all, ids, k));
    forall k | 0 <= k < n ensures Next(takes[k], Take(ids[k]), takes[k + 1]) { TakesPhase(all, ids, k); }
    TakesPhase(all, ids, n);
    TakesPhase(all, ids, 0);
    AddZero();
    var s0, a, b := takes[n], ids[0], ids[U64];
    var s1 := s0.(phase := s0.phase[a := Holding(0)]);
    var s2 := s1.(phase := s1.phase[b := Holding(0)]);
    states := takes + [s1, s2];
    steps := seq(n, k requires 0 <= k < n => Take(ids[k])) + [Enter(a), Enter(b)];
    forall i | 0 <= i < |steps| ensures Next(states[i], steps[i], states[i + 1]) {
      if i < n { assert Next(takes[i], Take(ids[i]), takes[i + 1]); }
    }
  }
}
