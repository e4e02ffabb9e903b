/**
 * The server's registry of agent runs: each run id maps to a mutable entry
 * holding the run's task, a status string and the metadata given at
 * registration. The asyncio task is reduced to the two facts the registry
 * reads and writes: whether it has finished and whether cancellation was
 * requested.
 */
module Processes {
  import opened Wrappers

  const Running := "running"
  const Cancelled := "cancelled"
  /** The status `mark_done` writes when none is given. */
  const DefaultDoneStatus := "completed"

  /** An asyncio task, as far as the registry sees it. */
  class Task {
    var done: bool
    var cancelRequested: bool

    constructor ()
      ensures !done && !cancelRequested
    {
      done := false;
      cancelRequested := false;
    }

    /** `task.cancel()`: requests cancellation; the task finishes later, when the event loop delivers it. */
    method Cancel()
      modifies this
      ensures cancelRequested && done == old(done)
    {
      cancelRequested := true;
    }
  }

  /** The dictionary stored for one run; its status is overwritten in place. */
  class Entry {
    const task: Task
    var status: string
    const metadata: map<string, string>

    constructor (task: Task, metadata: map<string, string>)
      ensures this.task == task && status == Running && this.metadata == metadata
    {
      this.task := task;
      status := Running;
      this.metadata := metadata;
    }
  }

  class ProcessManager {
    var processes: map<string, Entry>

    /** Every run id has an entry of its own: `register` always builds a new dictionary. */
    ghost predicate Valid()
      reads this
    {
      forall a, b :: a in processes && b in processes && a != b ==> processes[a] != processes[b]
    }

    constructor ()
      ensures processes == map[] && Valid()
    {
      processes := map[];
    }

    /** `list_all`: every registered run id with its current status. */
    function ListAll(): (statuses: map<string, string>)
      reads this, processes.Values
      ensures statuses.Keys == processes.Keys
      ensures forall id :: id in processes ==> statuses[id] == processes[id].status
    {
      map id | id in processes :: processes[id].status
    }

    /** `get`: the entry of a run, or None when the id was never registered. */
    function Get(runId: string): (entry: Option<Entry>)
      reads this
      ensures entry.Some? <==> runId in processes
      ensures entry.Some? ==> entry.value == processes[runId]
    {
      if runId in processes then Some(processes[runId]) else None
    }

    /** `is_running`: the run is registered and its task has not finished. */
    function IsRunning(runId: string): (running: bool)
      reads this, if runId in processes then {processes[runId].task} else {}
      ensures running <==> runId in processes && !processes[runId].task.done
    {
      match Get(runId)
      case None => false
      case Some(entry) => !entry.task.done
    }

    /** `register`: a fresh "running" entry for the run, replacing any earlier one under that id. */
    method Register(runId: string, task: Task, metadata: map<string, string> := map[])
      requires Valid()
      modifies this
      ensures Valid()
      ensures processes.Keys == old(processes.Keys) + {runId}
      ensures fresh(processes[runId])
      ensures processes[runId].task == task && processes[runId].metadata == metadata
      ensures forall k :: k in old(processes) && k != runId ==> processes[k] == old(processes)[k]
      ensures ListAll() == old(ListAll())[runId := Running]
    {
      var entry := new Entry(task, metadata);
      processes := processes[runId := entry];
    }

    /**
     * `stop`: for a registered run, requests cancellation of its task unless
     * it has finished, and sets its status to "cancelled" in either case.
     * An unknown id changes nothing.
     */
    method Stop(runId: string)
      requires Valid()
      modifies if runId in processes then {processes[runId], processes[runId].task} else {}
      ensures Valid() && processes == old(processes)
      ensures runId in processes ==> ListAll() == old(ListAll())[runId := Cancelled]
      ensures runId !in processes ==> ListAll() == old(ListAll())
      ensures runId in processes ==> var t := processes[runId].task;
        t.done == old(t.done) && t.cancelRequested == (old(t.cancelRequested) || !old(t.done))
    {
      var entry := Get(runId);
      if entry.Some? {
        var task := entry.value.task;
        if !task.done {
          task.Cancel();
        }
        entry.value.status := Cancelled;
      }
    }

    /** `mark_done`: overwrites the status of a registered run; an unknown id changes nothing. */
    method MarkDone(runId: string, status: string := DefaultDoneStatus)
      requires Valid()
      modifies if runId in processes then {processes[runId]} else {}
      ensures Valid() && processes == old(processes)
      ensures runId in processes ==> ListAll() == old(ListAll())[runId := status]
      ensures runId !in processes ==> ListAll() == old(ListAll())
    {
      var entry := Get(runId);
      if entry.Some? {
        entry.value.status := status;
      }
    }
  }
}
