/**
 * The task manager's running-task counter (tasks/TaskManager.java): a map from task
 * name to the number of running tasks of that name, in which a name whose count
 * drops to zero has no entry. A task registers itself when it starts and
 * deregisters itself when it ends (tasks/Task.java).
 */
module TaskManagement {

  /**
   * The task names. `TaskManager.TaskName` (TaskManager.java:23-25) declares the first
   * six; UpdateKeygroupSubscriptionsTask registers under a seventh that the enum does
   * not declare.
   */
  datatype TaskName =
    | Log
    | Sleep
    | UpdateKeygroupConfig
    | PutDataRecord
    | StoreDataRecord
    | UpdateNodeConfig
    | UpdateKeygroupSubscriptions

  type Counts = map<TaskName, int>

  /** Every stored count is at least one. */
  ghost predicate Positive(m: Counts) {
    forall n | n in m :: m[n] >= 1
  }

  /** The number of running tasks of a name: its count, or zero without an entry. */
  function Running(m: Counts, n: TaskName): int {
    if n in m then m[n] else 0
  }

  function Registered(m: Counts, n: TaskName): Counts {
    if n in m then m[n := m[n] + 1] else m[n := 1]
  }

  function Deregistered(m: Counts, n: TaskName): Counts {
    if n !in m then m
    else if m[n] - 1 > 0 then m[n := m[n] - 1]
    else m - {n}
  }

  /** Registering sets an absent name's count to 1, adds one to a present one and changes no other name. */
  lemma RegisterEffect(m: Counts, n: TaskName, other: TaskName)
    requires Positive(m)
    ensures Positive(Registered(m, n))
    ensures n in Registered(m, n) && Registered(m, n)[n] == (if n in m then m[n] + 1 else 1)
    ensures Running(Registered(m, n), n) == Running(m, n) + 1
    ensures other != n ==> Running(Registered(m, n), other) == Running(m, other)
    ensures other != n ==> (other in Registered(m, n) <==> other in m)
  {
  }

  /**
   * Deregistering a name without an entry changes nothing; a count above one goes
   * down by one; a count of one loses its entry. No other name changes.
   */
  lemma DeregisterEffect(m: Counts, n: TaskName, other: TaskName)
    requires Positive(m)
    ensures Positive(Deregistered(m, n))
    ensures n !in m ==> Deregistered(m, n) == m
    ensures n in m && m[n] > 1 ==> n in Deregistered(m, n) && Deregistered(m, n)[n] == m[n] - 1
    ensures n in m && m[n] == 1 ==> n !in Deregistered(m, n)
    ensures Running(Deregistered(m, n), n) == if Running(m, n) > 0 then Running(m, n) - 1 else 0
    ensures other != n ==> Running(Deregistered(m, n), other) == Running(m, other)
    ensures other != n ==> (other in Deregistered(m, n) <==> other in m)
  {
  }

  /** Under the invariant, the counts are determined by the numbers of running tasks alone. */
  lemma RunningDetermines(m1: Counts, m2: Counts)
    requires Positive(m1) && Positive(m2)
    requires forall n :: Running(m1, n) == Running(m2, n)
    ensures m1 == m2
  {
    forall n ensures n in m1 <==> n in m2 {
      assert Running(m1, n) == Running(m2, n);
    }
    forall n | n in m1 ensures m1[n] == m2[n] {
      assert Running(m1, n) == Running(m2, n);
    }
  }

  /** The pairing a task's call relies on: register then deregister the same name restores the counts. */
  lemma RegisterThenDeregister(m: Counts, n: TaskName)
    requires Positive(m)
    ensures Deregistered(Registered(m, n), n) == m
  {
    var r := Deregistered(Registered(m, n), n);
    forall x ensures Running(r, x) == Running(m, x) {
      RegisterEffect(m, n, x);
      DeregisterEffect(Registered(m, n), n, x);
    }
    RegisterEffect(m, n, n);
    DeregisterEffect(Registered(m, n), n, n);
    RunningDetermines(r, m);
  }

  class TaskManager {
    var runningTasks: Counts

    ghost predicate Valid()
      reads this
    {
      Positive(runningTasks)
    }

    constructor ()
      ensures Valid() && runningTasks == map[]
    {
      runningTasks := map[];
    }

    method RegisterTask(name: TaskName)
      requires Valid()
      modifies this
      ensures Valid()
      ensures runningTasks == Registered(old(runningTasks), name)
    {
      RegisterEffect(runningTasks, name, name);
      if name in runningTasks {
        runningTasks := runningTasks[name := runningTasks[name] + 1];
      } else {
        runningTasks := runningTasks[name := 1];
      }
    }

    method DeregisterTask(name: TaskName)
      requires Valid()
      modifies this
      ensures Valid()
      ensures runningTasks == Deregistered(old(runningTasks), name)
    {
      DeregisterEffect(runningTasks, name, name);
      if name in runningTasks {
        var number := runningTasks[name] - 1;
        if number > 0 {
          runningTasks := runningTasks[name := number];
        } else {
          runningTasks := runningTasks - {name};
        }
      }
    }

    /** A copy of the counts. */
    method GetRunningTaskNumbers() returns (counts: Counts)
      ensures counts == runningTasks
    {
      counts := runningTasks;
    }

    method DeleteAllData()
      modifies this
      ensures Valid() && runningTasks == map[]
    {
      runningTasks := map[];
    }

    /**
     * A task's call: register its name, run the task's functionality (not modelled),
     * deregister. `completes` says whether the functionality returns; when it throws
     * instead, nothing deregisters the name (there is no `finally`), so its count stays
     * one higher. A call that completes leaves the counts where they began.
     */
    method RunTask(name: TaskName, completes: bool)
      requires Valid()
      modifies this
      ensures Valid()
      ensures completes ==> runningTasks == old(runningTasks)
      ensures !completes ==> runningTasks == Registered(old(runningTasks), name)
    {
      RegisterTask(name);
      if completes {
        DeregisterTask(name);
        RegisterThenDeregister(old(runningTasks), name);
      }
    }
  }
}
