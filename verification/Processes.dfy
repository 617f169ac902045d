/** The process table and the fork, exit, wait, sleep, wakeup and kill state machine of proc.c. */
module Processes {
  import opened Params

  datatype RunState = UNUSED | EMBRYO | SLEEPING | RUNNABLE | RUNNING | ZOMBIE

  /** What a process can sleep on: a process's own slot (only wait does), or anything else. */
  datatype Chan = Nowhere | OfProc(slot: int) | Other(id: int)

  datatype Proc = Proc(state: RunState, pid: nat, parent: int, chan: Chan, killed: bool)

  const NOBODY := -1     // the null parent
  const INIT := 0        // initproc takes the first slot

  ghost predicate Alive(p: Proc) {
    p.state == SLEEPING || p.state == RUNNABLE || p.state == RUNNING
  }

  ghost predicate Child(procs: seq<Proc>, k: int, parent: int) {
    0 <= k < |procs| && procs[k].parent == parent
  }

  ghost predicate HasChild(procs: seq<Proc>, parent: int) {
    exists k :: Child(procs, k, parent)
  }

  ghost predicate ZombieChild(procs: seq<Proc>, k: int, parent: int) {
    Child(procs, k, parent) && procs[k].state == ZOMBIE
  }

  ghost predicate HasZombie(procs: seq<Proc>, parent: int) {
    exists k :: ZombieChild(procs, k, parent)
  }

  // What the operations do to one slot

  function Wake(p: Proc, c: Chan): Proc {
    if p.state == SLEEPING && p.chan == c then p.(state := RUNNABLE) else p
  }

  /** wakeup1 changes nothing but the sleepers on c. */
  ghost predicate Woken(procs: seq<Proc>, c: Chan, after: seq<Proc>) {
    |after| == |procs| && forall k :: 0 <= k < |procs| ==> after[k] == Wake(procs[k], c)
  }

  /** Slot contents p once me's children are init's, and init is awake if there was a zombie among them. */
  function Passed(p: Proc, me: int, zombie: bool): Proc {
    var q := if zombie then Wake(p, OfProc(INIT)) else p;
    if q.parent == me then q.(parent := INIT) else q
  }

  /** What me's exit makes of slot k. */
  ghost function AfterExit(procs: seq<Proc>, me: nat, k: nat): Proc
    requires me < |procs| && k < |procs|
  {
    var p := Passed(Wake(procs[k], OfProc(procs[me].parent)), me, HasZombie(procs, me));
    if k == me then p.(state := ZOMBIE) else p
  }

  ghost predicate Exited(procs: seq<Proc>, me: nat, after: seq<Proc>)
    requires me < |procs|
  {
    |after| == |procs| && forall k :: 0 <= k < |procs| ==> after[k] == AfterExit(procs, me, k)
  }

  function Killed(p: Proc): Proc {
    p.(killed := true, state := if p.state == SLEEPING then RUNNABLE else p.state)
  }

  function Reaped(p: Proc): Proc {
    p.(state := UNUSED, pid := 0, parent := NOBODY, killed := false)
  }

  /** What one scan of wait finds. */
  datatype Found = Zombie(k: nat) | NoKids | Kids

  ghost predicate Scanned(procs: seq<Proc>, me: nat, found: Found) {
    match found
    case Zombie(k) => ZombieChild(procs, k, me) && forall j :: 0 <= j < k ==> !ZombieChild(procs, j, me)
    case NoKids => !HasChild(procs, me)
    case Kids => HasChild(procs, me) && !HasZombie(procs, me)
  }

  class ProcessTable {
    var proc: seq<Proc>
    var nextpid: nat

    ghost predicate Valid()
      reads this
    {
      |proc| == NPROC
    }

    /** allocproc's first half: claim the first unused slot, or none is left. */
    method AllocProc() returns (j: int)
      requires Valid()
      modifies this
      ensures Valid()
      ensures j < 0 ==> proc == old(proc) && nextpid == old(nextpid) && forall k :: 0 <= k < NPROC ==> proc[k].state != UNUSED
      ensures 0 <= j ==>
                && j < NPROC && old(proc[j]).state == UNUSED && (forall k :: 0 <= k < j ==> old(proc[k]).state != UNUSED)
                && proc == old(proc)[j := old(proc[j]).(state := EMBRYO, pid := old(nextpid))]
                && nextpid == old(nextpid) + 1
    {
      j := 0;
      while j < NPROC
        invariant 0 <= j <= NPROC && proc == old(proc) && nextpid == old(nextpid)
        invariant forall k :: 0 <= k < j ==> proc[k].state != UNUSED
      {
        if proc[j].state == UNUSED {
          proc := proc[j := proc[j].(state := EMBRYO, pid := nextpid)];
          nextpid := nextpid + 1;
          return;
        }
        j := j + 1;
      }
      j := -1;
    }

    method Wakeup1(c: Chan)
      requires Valid()
      modifies `proc
      ensures Valid() && Woken(old(proc), c, proc)
    {
      var i := 0;
      while i < NPROC
        invariant 0 <= i <= NPROC && |proc| == NPROC
        invariant forall k :: 0 <= k < i ==> proc[k] == Wake(old(proc)[k], c)
        invariant forall k :: i <= k < NPROC ==> proc[k] == old(proc)[k]
      {
        if proc[i].state == SLEEPING && proc[i].chan == c {
          proc := proc[i := proc[i].(state := RUNNABLE)];
        }
        i := i + 1;
      }
    }

    /** exit's loop: hand the children to init, and wake it for those that are zombies. */
    method PassChildren(me: nat)
      requires Valid() && me < NPROC
      modifies `proc
      ensures Valid() && forall k :: 0 <= k < NPROC ==> proc[k] == Passed(old(proc)[k], me, HasZombie(old(proc), me))
    {
      var i := 0;
      ghost var zombie := false;
      while i < NPROC
        invariant 0 <= i <= NPROC && |proc| == NPROC
        invariant zombie ==> HasZombie(old(proc), me)
        invariant !zombie ==> forall k :: 0 <= k < i ==> !ZombieChild(old(proc), k, me)
        invariant forall k :: 0 <= k < i ==> proc[k] == Passed(old(proc)[k], me, zombie)
        invariant forall k :: i <= k < NPROC ==> proc[k] == if zombie then Wake(old(proc)[k], OfProc(INIT)) else old(proc)[k]
      {
        if proc[i].parent == me {
          proc := proc[i := proc[i].(parent := INIT)];
          if proc[i].state == ZOMBIE {
            assert ZombieChild(old(proc), i, me);
            Wakeup1(OfProc(INIT));
            zombie := true;
          }
        }
        i := i + 1;
      }
    }

    /** exit's critical section: wake the parent, hand the children to init, become a zombie. */
    method Exit(me: nat)
      requires Valid() && me < NPROC && me != INIT && proc[me].state == RUNNING
      modifies `proc
      ensures Valid() && Exited(old(proc), me, proc)
    {
      Wakeup1(OfProc(proc[me].parent));
      ghost var woken := proc;
      PassChildren(me);
      assert HasZombie(woken, me) <==> HasZombie(old(proc), me) by {
        forall k
          ensures ZombieChild(woken, k, me) <==> ZombieChild(old(proc), k, me)
        {
        }
      }
      proc := proc[me := proc[me].(state := ZOMBIE)];
    }

    /** wait's scan for a zombie child. */
    method Scan(me: nat) returns (found: Found)
      requires Valid() && me < NPROC
      ensures Scanned(proc, me, found)
    {
      found := NoKids;
      var i := 0;
      while i < NPROC
        invariant 0 <= i <= NPROC && !found.Zombie?
        invariant found.NoKids? ==> forall k :: 0 <= k < i ==> !Child(proc, k, me)
        invariant found.Kids? ==> HasChild(proc, me)
        invariant forall k :: 0 <= k < i ==> !ZombieChild(proc, k, me)
      {
        if proc[i].parent == me {
          assert Child(proc, i, me);
          found := Kids;
          if proc[i].state == ZOMBIE {
            return Zombie(i);
          }
        }
        i := i + 1;
      }
    }

    /** One turn of wait's loop: reap and return a pid, return -1, or fall asleep to be scanned again (outcome 0). */
    method Wait(me: nat) returns (r: int, found: Found)
      requires Valid() && me < NPROC && proc[me].state == RUNNING
      modifies `proc
      ensures Valid() && Scanned(old(proc), me, found)
      ensures found.Zombie? ==> r == old(proc)[found.k].pid && proc == old(proc)[found.k := Reaped(old(proc)[found.k])]
      ensures !found.Zombie? && (found.NoKids? || old(proc)[me].killed) ==> r == -1 && proc == old(proc)
      ensures found.Kids? && !old(proc)[me].killed ==>
                r == 0 && proc == old(proc)[me := old(proc)[me].(chan := OfProc(me), state := SLEEPING)]
    {
      found := Scan(me);
      if found.Zombie? {
        r := proc[found.k].pid;
        proc := proc[found.k := Reaped(proc[found.k])];
      } else if found.NoKids? || proc[me].killed {
        r := -1;
      } else {
        proc := proc[me := proc[me].(chan := OfProc(me), state := SLEEPING)];
        r := 0;
      }
    }

    /** kill: the first slot that carries the pid, whatever its state. */
    method Kill(pid: nat) returns (r: int)
      requires Valid()
      modifies `proc
      ensures Valid() && (r == 0 || r == -1)
      ensures r == -1 <==> forall k :: 0 <= k < NPROC ==> old(proc)[k].pid != pid
      ensures r == -1 ==> proc == old(proc)
      ensures r == 0 ==> exists k :: 0 <= k < NPROC && FirstWith(old(proc), pid, k) && proc == old(proc)[k := Killed(old(proc)[k])]
    {
      var i := 0;
      while i < NPROC
        invariant 0 <= i <= NPROC && proc == old(proc)
        invariant forall k :: 0 <= k < i ==> proc[k].pid != pid
      {
        if proc[i].pid == pid {
          assert FirstWith(proc, pid, i);
          proc := proc[i := Killed(proc[i])];
          return 0;
        }
        i := i + 1;
      }
      return -1;
    }
  }

  ghost predicate FirstWith(procs: seq<Proc>, pid: nat, k: int) {
    0 <= k < |procs| && procs[k].pid == pid && forall j :: 0 <= j < k ==> procs[j].pid != pid
  }
}
