/** The reaper of the idle thread: what one pass removes and what repeated passes leave. */
module Reaper {
  import opened Seqs

  /** Threads of a task are listed from its head; the scan starts behind the head and stops at it. */
  predicate Eligible(s: seq<nat>, zs: set<nat>, k: nat) {
    k < |s| && s[k] in zs && (k > 0 || |s| == 1)
  }

  predicate AllZombies(s: seq<nat>, zs: set<nat>) {
    forall i | 0 <= i < |s| :: s[i] in zs
  }

  function Live(s: seq<nat>, zs: set<nat>): (r: seq<nat>) {
    if s == [] then [] else (if s[0] in zs then [] else [s[0]]) + Live(s[1..], zs)
  }

  /** The first eligible position, |s| when there is none */
  ghost predicate FirstEligible(s: seq<nat>, zs: set<nat>, k: nat) {
    && k <= |s| && (k < |s| ==> Eligible(s, zs, k))
    && forall j: nat | j < k :: !Eligible(s, zs, j)
  }

  /** One pass: the first eligible zombie of the first task that has one is unlinked. */
  ghost predicate Pass(tasks: seq<seq<nat>>, zs: set<nat>, i: nat, k: nat, tasks': seq<seq<nat>>) {
    && i < |tasks| && k < |tasks[i]| && FirstEligible(tasks[i], zs, k)
    && (forall j: nat | j < i :: FirstEligible(tasks[j], zs, |tasks[j]|))
    && tasks' == tasks[i := RemoveAt(tasks[i], k)]
  }

  ghost predicate Nothing(tasks: seq<seq<nat>>, zs: set<nat>) {
    forall i: nat | i < |tasks| :: FirstEligible(tasks[i], zs, |tasks[i]|)
  }

  /** What is left of a task: a task of zombies empties; otherwise the head stays, even as a zombie. */
  function Final(s: seq<nat>, zs: set<nat>): (r: seq<nat>) {
    if AllZombies(s, zs) then [] else [s[0]] + Live(s[1..], zs)
  }

  /** How many threads of a task repeated passes remove */
  function Doomed(s: seq<nat>, zs: set<nat>): (n: nat) {
    LiveShrinks(if s == [] then [] else s[1..], zs);
    if AllZombies(s, zs) then |s| else |s| - 1 - |Live(s[1..], zs)|
  }

  lemma {:induction false} LiveShrinks(s: seq<nat>, zs: set<nat>)
    ensures |Live(s, zs)| <= |s|
    ensures |Live(s, zs)| == |s| <==> forall i | 0 <= i < |s| :: s[i] !in zs
    ensures |Live(s, zs)| == |s| ==> Live(s, zs) == s
  {
    if s != [] {
      LiveShrinks(s[1..], zs);
      if |Live(s, zs)| == |s| {
        forall i | 0 <= i < |s| ensures s[i] !in zs { if i > 0 { assert s[i] == s[1..][i - 1]; } }
      }
    }
  }

  lemma {:induction false} LiveCut(s: seq<nat>, zs: set<nat>, k: nat)
    requires k < |s| && s[k] in zs
    ensures Live(RemoveAt(s, k), zs) == Live(s, zs)
  {
    if k == 0 {
      assert RemoveAt(s, 0) == s[1..];
    } else {
      LiveCut(s[1..], zs, k - 1);
      assert RemoveAt(s, k)[1..] == RemoveAt(s[1..], k - 1);
    }
  }

  /** Removing an eligible zombie uses up one doomed thread and does not change the final task. */
  lemma CutKeepsFinal(s: seq<nat>, zs: set<nat>, k: nat)
    requires Eligible(s, zs, k)
    ensures Final(RemoveAt(s, k), zs) == Final(s, zs) && Doomed(RemoveAt(s, k), zs) == Doomed(s, zs) - 1
  {
    var r := RemoveAt(s, k);
    if AllZombies(s, zs) {
      assert AllZombies(r, zs);
    } else {
      assert k > 0;
      LiveCut(s[1..], zs, k - 1);
      assert r[1..] == RemoveAt(s[1..], k - 1);
      var i: nat :| i < |s| && s[i] !in zs;
      assert r[if i < k then i else i - 1] == s[i];
    }
  }

  /** A task has no eligible zombie exactly when it is final. */
  lemma DoomedIffEligible(s: seq<nat>, zs: set<nat>)
    ensures FirstEligible(s, zs, |s|) <==> Doomed(s, zs) == 0
    ensures Doomed(s, zs) == 0 ==> Final(s, zs) == s
  {
    if s != [] {
      LiveShrinks(s[1..], zs);
      if Doomed(s, zs) == 0 {
        forall j: nat | j < |s| ensures !Eligible(s, zs, j) {
          if j > 0 { assert s[j] == s[1..][j - 1]; }
        }
      } else if AllZombies(s, zs) {
        assert Eligible(s, zs, |s| - 1);
      } else {
        var j: nat :| j < |s[1..]| && s[1..][j] in zs;
        assert Eligible(s, zs, j + 1);
      }
    }
  }

  ghost function TotalDoomed(tasks: seq<seq<nat>>, zs: set<nat>): (n: nat) {
    if tasks == [] then 0 else TotalDoomed(tasks[..|tasks| - 1], zs) + Doomed(tasks[|tasks| - 1], zs)
  }

  ghost predicate AllFinal(tasks: seq<seq<nat>>, zs: set<nat>, r: seq<seq<nat>>) {
    |r| == |tasks| && forall i: nat | i < |tasks| :: r[i] == Final(tasks[i], zs)
  }

  lemma {:induction false} TotalUpdate(tasks: seq<seq<nat>>, zs: set<nat>, i: nat, s: seq<nat>)
    requires i < |tasks|
    ensures TotalDoomed(tasks[i := s], zs) == TotalDoomed(tasks, zs) - Doomed(tasks[i], zs) + Doomed(s, zs)
    decreases |tasks|
  {
    var n := |tasks| - 1;
    if i < n {
      TotalUpdate(tasks[..n], zs, i, s);
      assert tasks[i := s][..n] == tasks[..n][i := s];
    } else {
      assert tasks[i := s][..n] == tasks[..n];
    }
  }

  lemma {:induction false} NothingIffZero(tasks: seq<seq<nat>>, zs: set<nat>)
    ensures Nothing(tasks, zs) <==> TotalDoomed(tasks, zs) == 0
    decreases |tasks|
  {
    if tasks != [] {
      var n := |tasks| - 1;
      NothingIffZero(tasks[..n], zs);
      DoomedIffEligible(tasks[n], zs);
      if TotalDoomed(tasks, zs) == 0 {
        forall i: nat | i < |tasks| ensures FirstEligible(tasks[i], zs, |tasks[i]|) {
          if i < n { assert tasks[..n][i] == tasks[i]; }
        }
      }
    }
  }

  ghost predicate Removes(tasks: seq<seq<nat>>, zs: set<nat>, tasks': seq<seq<nat>>) {
    exists i: nat, k: nat :: Pass(tasks, zs, i, k, tasks')
  }

  ghost predicate Passes(runs: seq<seq<seq<nat>>>, zs: set<nat>) {
    runs != [] && forall j: nat | j < |runs| - 1 :: Removes(runs[j], zs, runs[j + 1])
  }

  /** One pass counts down by one and keeps the final tasks. */
  lemma PassCounts(tasks: seq<seq<nat>>, zs: set<nat>, i: nat, k: nat, tasks': seq<seq<nat>>)
    requires Pass(tasks, zs, i, k, tasks')
    ensures TotalDoomed(tasks', zs) == TotalDoomed(tasks, zs) - 1
    ensures forall r :: AllFinal(tasks', zs, r) <==> AllFinal(tasks, zs, r)
  {
    CutKeepsFinal(tasks[i], zs, k);
    TotalUpdate(tasks, zs, i, RemoveAt(tasks[i], k));
    forall r ensures AllFinal(tasks', zs, r) <==> AllFinal(tasks, zs, r) {
      if |r| == |tasks| {
        forall j: nat | j < |tasks| ensures Final(tasks'[j], zs) == Final(tasks[j], zs) {}
      }
    }
  }

  /**
   Repeated passes with no further exits remove exactly the doomed threads, one per pass, and end with
   every task in its final form: zombies survive only as heads of tasks that still have a live thread.
   */
  lemma {:induction false} RepeatedPasses(runs: seq<seq<seq<nat>>>, zs: set<nat>)
    requires Passes(runs, zs)
    ensures |runs| - 1 <= TotalDoomed(runs[0], zs)
    ensures var last := runs[|runs| - 1];
            && (Nothing(last, zs) <==> |runs| - 1 == TotalDoomed(runs[0], zs))
            && (Nothing(last, zs) ==> AllFinal(runs[0], zs, last))
    decreases |runs|
  {
    NothingIffZero(runs[0], zs);
    if |runs| == 1 {
      if Nothing(runs[0], zs) {
        forall i: nat | i < |runs[0]| ensures runs[0][i] == Final(runs[0][i], zs) { DoomedIffEligible(runs[0][i], zs); }
      }
    } else {
      assert Removes(runs[0], zs, runs[0 + 1]);
      var i: nat, k: nat :| Pass(runs[0], zs, i, k, runs[1]);
      PassCounts(runs[0], zs, i, k, runs[1]);
      var rest := runs[1..];
      forall j: nat | j < |rest| - 1 ensures Removes(rest[j], zs, rest[j + 1]) {
        assert Removes(runs[j + 1], zs, runs[j + 1 + 1]);
      }
      RepeatedPasses(rest, zs);
      assert rest[|rest| - 1] == runs[|runs| - 1];
    }
  }

  /** How many of the passes remove a thread from task i */
  ghost function Removals(runs: seq<seq<seq<nat>>>, i: nat): (n: nat)
    requires forall j | 0 <= j < |runs| :: i < |runs[j]|
  {
    if |runs| < 2 then 0 else Removals(runs[1..], i) + if runs[1][i] != runs[0][i] then 1 else 0
  }

  lemma PassesKeepTasks(runs: seq<seq<seq<nat>>>, zs: set<nat>, j: nat)
    requires Passes(runs, zs) && j < |runs|
    ensures |runs[j]| == |runs[0]|
  {
    if j > 0 {
      PassesKeepTasks(runs, zs, j - 1);
      assert Removes(runs[j - 1], zs, runs[j - 1 + 1]);
    }
  }

  /** Every removal from a task takes one thread, so the task shrinks by their number. */
  lemma {:induction false} RemovalsCount(runs: seq<seq<seq<nat>>>, zs: set<nat>, i: nat)
    requires Passes(runs, zs) && forall j | 0 <= j < |runs| :: i < |runs[j]|
    ensures |runs[|runs| - 1][i]| + Removals(runs, i) == |runs[0][i]|
    decreases |runs|
  {
    if |runs| >= 2 {
      var rest := runs[1..];
      forall j: nat | j < |rest| - 1 ensures Removes(rest[j], zs, rest[j + 1]) {
        assert Removes(runs[j + 1], zs, runs[j + 1 + 1]);
      }
      RemovalsCount(rest, zs, i);
      assert rest[|rest| - 1] == runs[|runs| - 1];
      assert Removes(runs[0], zs, runs[0 + 1]);
      var k: nat, l: nat :| Pass(runs[0], zs, k, l, runs[1]);
      assert k != i ==> runs[1][i] == runs[0][i];
      assert k == i ==> |runs[1][i]| == |runs[0][i]| - 1;
    }
  }

  /**
   Passes until nothing is left to reap remove from each task exactly its doomed threads; a task of n zombies, beside
   any other tasks, becomes empty after exactly n removals from it.
   */
  lemma ZombieTaskEmpties(runs: seq<seq<seq<nat>>>, zs: set<nat>, i: nat)
    requires Passes(runs, zs) && Nothing(runs[|runs| - 1], zs) && i < |runs[0]|
    ensures forall j | 0 <= j < |runs| :: i < |runs[j]|
    ensures Removals(runs, i) == Doomed(runs[0][i], zs)
    ensures AllZombies(runs[0][i], zs) ==> runs[|runs| - 1][i] == [] && Removals(runs, i) == |runs[0][i]|
  {
    forall j | 0 <= j < |runs| ensures i < |runs[j]| { PassesKeepTasks(runs, zs, j); }
    RepeatedPasses(runs, zs);
    RemovalsCount(runs, zs, i);
    FinalLength(runs[0][i], zs);
  }

  lemma FinalLength(s: seq<nat>, zs: set<nat>)
    ensures |Final(s, zs)| + Doomed(s, zs) == |s|
  {
  }

  /** A zombie is in the final form of its task exactly when it heads the task and the task keeps a live thread. */
  lemma {:induction false} FinalZombie(s: seq<nat>, zs: set<nat>, z: nat)
    requires z in zs && z in s && Distinct(s)
    ensures z in Final(s, zs) <==> s[0] == z && !AllZombies(s, zs)
  {
    LiveMembers(s[1..], zs, z);
  }

  /**
   Passes until nothing is left to reap leave a zombie of task i exactly when it headed the task and the task had a
   live thread.
   */
  lemma SurvivorsAreHeads(runs: seq<seq<seq<nat>>>, zs: set<nat>, i: nat, z: nat)
    requires Passes(runs, zs) && Nothing(runs[|runs| - 1], zs) && i < |runs[0]|
    requires z in zs && z in runs[0][i] && Distinct(runs[0][i])
    ensures i < |runs[|runs| - 1]|
    ensures z in runs[|runs| - 1][i] <==> runs[0][i][0] == z && !AllZombies(runs[0][i], zs)
  {
    RepeatedPasses(runs, zs);
    FinalZombie(runs[0][i], zs, z);
  }

  /** The zombie head of a task with a live thread: no pass removes anything, and the zombie stays. */
  lemma HeadStays()
    ensures var tasks, zs := [[0], [1, 2]], {1};
            Nothing(tasks, zs) && forall i: nat, k: nat, tasks' :: !Pass(tasks, zs, i, k, tasks')
  {
    var tasks, zs := [[0], [1, 2]], {1};
    assert tasks[0] == [0] && tasks[1] == [1, 2];
    forall i: nat | i < |tasks| ensures FirstEligible(tasks[i], zs, |tasks[i]|) {}
  }

  lemma {:induction false} LiveMembers(s: seq<nat>, zs: set<nat>, t: nat)
    ensures t in Live(s, zs) <==> t in s && t !in zs
  {
    if s != [] { LiveMembers(s[1..], zs, t); }
  }
}
