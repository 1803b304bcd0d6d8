/** The three scheduling policies as the containers the pool uses. */
module Schedulers {
  import opened PoolMachine

  class FifoScheduler {
    var container: seq<Task>

    constructor ()
      ensures container == []
    {
      container := [];
    }

    method Push(task: Task) returns (accepted: bool)
      modifies this
      ensures accepted && container == Enqueue(Fifo, old(container), task)
    {
      container := container + [task];
      accepted := true;
    }

    method Top() returns (task: Task)
      requires container != []
      ensures forall i :: 0 <= i < |container| && Pops(Fifo, container, i) ==> task == container[i]
    {
      task := container[0];
    }

    method Pop()
      requires container != []
      modifies this
      ensures container == Without(old(container), 0)
    {
      container := container[1..];
    }

    method Clear()
      modifies this
      ensures container == []
    {
      container := [];
    }
  }

  class LifoScheduler {
    var container: seq<Task>

    constructor ()
      ensures container == []
    {
      container := [];
    }

    method Push(task: Task) returns (accepted: bool)
      modifies this
      ensures accepted && container == Enqueue(Lifo, old(container), task)
    {
      container := [task] + container;
      accepted := true;
    }

    method Top() returns (task: Task)
      requires container != []
      ensures forall i :: 0 <= i < |container| && Pops(Lifo, container, i) ==> task == container[i]
    {
      task := container[0];
    }

    method Pop()
      requires container != []
      modifies this
      ensures container == Without(old(container), 0)
    {
      container := container[1..];
    }

    method Clear()
      modifies this
      ensures container == []
    {
      container := [];
    }
  }

  /** `best` stands for the element std::priority_queue keeps at its front. */
  class PrioScheduler {
    var container: seq<Task>
    var best: nat

    ghost predicate Valid()
      reads this
    {
      container != [] ==> Pops(Priority, container, best)
    }

    constructor ()
      ensures Valid() && container == []
    {
      container := [];
      best := 0;
    }

    method Push(task: Task) returns (accepted: bool)
      requires Valid()
      modifies this
      ensures Valid() && accepted && container == Enqueue(Priority, old(container), task)
    {
      if container == [] || container[best].priority < task.priority {
        best := |container|;
      }
      container := container + [task];
      accepted := true;
    }

    method Top() returns (task: Task)
      requires Valid() && container != []
      ensures task == container[best] && forall t :: t in container ==> t.priority <= task.priority
    {
      task := container[best];
    }

    method Pop()
      requires Valid() && container != []
      modifies this
      ensures Valid() && container == Without(old(container), old(best))
    {
      container := Without(container, best);
      if container != [] {
        ghost var k := SomethingPops(Priority, container);
        var i: nat :| Pops(Priority, container, i);
        best := i;
      }
    }

    method Clear()
      requires Valid()
      modifies this
      ensures Valid() && container == []
    {
      while container != []
        invariant Valid()
        decreases |container|
      {
        Pop();
      }
    }
  }
}
