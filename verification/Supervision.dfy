/** PID 1 supervising the login shells on the consoles (init/init.c, init/tty.c,
    init/signals.c), as a system of steps between which signals arrive, children
    exit and the graphical session comes and goes. */
module Supervision {
  import opened Bytes

  const TTYS := 3

  datatype Sig = Chld | Int | Usr1 | Usr2 | Pwr
  datatype Action = Reboot | PowerOff | Halt

  function ActionOf(sig: Sig): Option<Action>
  {
    match sig
    case Int => Some(Reboot)
    case Usr1 => Some(PowerOff)
    case Pwr => Some(PowerOff)
    case Usr2 => Some(Halt)
    case Chld => None
  }

  // A child not yet waited for: the console it was forked for, if any, and whether it has exited.
  datatype Child = Child(tty: Option<nat>, exited: bool)

  // Where the supervision loop is.
  datatype Pc =
    | Check | Load | Clear(sig: Sig) | Act(sig: Sig)
    | Block | Reap | Look(i: nat) | Fork(i: nat) | Unblock | Sleep
    | Down(action: Action)

  // The last fields record the past: every signal the handler ran for, how many of them there
  // were at the last load and at the last clear of caught_sig, which of them were acted on, and
  // the consoles passed over in the current pass.
  datatype State = State(
    pc: Pc, caught: Option<Sig>, blocked: bool, pending: bool,
    slots: seq<int>, children: map<int, Child>, active: bool,
    delivered: seq<Sig>, loaded: nat, cleared: nat, served: set<nat>, skipped: set<nat>)

  /* ---- Slots ---- */

  // The slots after a process was waited for.
  function Released(slots: seq<int>, pid: int): (r: seq<int>)
    ensures |r| == |slots| && forall i | 0 <= i < |slots| :: r[i] == if slots[i] == pid then 0 else slots[i]
  {
    seq(|slots|, i requires 0 <= i < |slots| => if slots[i] == pid then 0 else slots[i])
  }

  // Whether the pass comes to fork for a console.
  predicate Wanted(slot: int, suppressed: bool, present: bool) { slot == 0 && !suppressed && present }

  // Slots after some processes were waited for, and after a pass that tries fork for the wanted ones.
  predicate ReapedTo(before: seq<int>, pids: seq<int>, after: seq<int>)
  {
    |after| == |before| && forall i | 0 <= i < |after| :: after[i] == if before[i] in pids then 0 else before[i]
  }

  predicate PassedTo(before: seq<int>, suppressed: bool, present: seq<bool>, forks: seq<int>, after: seq<int>, n: nat)
  {
    |after| == |before| == |present| == |forks| &&
    forall i | 0 <= i < |after| ::
      after[i] == if i < n && Wanted(before[i], i == 0 && suppressed, present[i]) then forks[i] else before[i]
  }

  class Ttys {
    var slots: seq<int>

    constructor ()
      ensures slots == [0, 0, 0]
    {
      slots := [0, 0, 0];
    }

    // reap_zombies, for the processes waitpid returns in turn
    method ReapZombies(pids: seq<int>)
      requires forall pid | pid in pids :: pid > 0
      modifies this
      ensures ReapedTo(old(slots), pids, slots)
      ensures forall i | 0 <= i < |slots| :: slots[i] == if old(slots)[i] in pids then 0 else old(slots)[i]
    {
      for n := 0 to |pids|
        invariant ReapedTo(old(slots), pids[..n], slots)
      {
        ghost var before := slots;
        for i := 0 to |slots|
          invariant |slots| == |before|
          invariant forall k | 0 <= k < |slots| :: slots[k] == if k < i && before[k] == pids[n] then 0 else before[k]
        {
          if slots[i] == pids[n] { slots := slots[i := 0]; }
        }
        assert pids[..n + 1] == pids[..n] + [pids[n]];
        assert pids[n] in pids;
      }
      assert pids[..|pids|] == pids;
    }

    // check_and_respawn_ttys: forks(i) is what fork would return for console i.
    method CheckAndRespawn(graphical: bool, active: bool, present: seq<bool>, forks: seq<int>)
      requires |slots| == |present| == |forks|
      modifies this
      ensures PassedTo(old(slots), graphical && active, present, forks, slots, |slots|)
      ensures forall i | 0 <= i < |slots| ::
        slots[i] ==
        if old(slots)[i] == 0 && present[i] && !(i == 0 && graphical && active) then forks[i] else old(slots)[i]
    {
      for i := 0 to |slots|
        invariant PassedTo(old(slots), graphical && active, present, forks, slots, i)
      {
        if slots[i] != 0 { continue; }
        if graphical && i == 0 {
          if active { continue; }
        }
        if present[i] { slots := slots[i := forks[i]]; }
      }
    }
  }

  /* ---- Steps ---- */

  ghost predicate Start(s: State)
  {
    s.pc == Check && s.caught == None && !s.blocked && s.slots == [0, 0, 0] &&
    (forall pid | pid in s.children :: pid > 0 && s.children[pid].tty == None) &&
    s.delivered == [] && s.loaded == 0 && s.cleared == 0 && s.served == {} && s.skipped == {}
  }

  ghost predicate Zombie(s: State, pid: int) { pid in s.children && s.children[pid].exited }

  ghost predicate ReapStep(s: State, t: State)
  {
    (exists pid :: Zombie(s, pid) && t == s.(children := s.children - {pid}, slots := Released(s.slots, pid))) ||
    ((forall pid :: !Zombie(s, pid)) && t == s.(pc := Look(0), skipped := {}))
  }

  ghost predicate LookStep(graphical: bool, s: State, t: State, i: nat)
  {
    if i >= |s.slots| then t == s.(pc := Unblock)
    else if s.slots[i] != 0 then t == s.(pc := Look(i + 1))
    else if graphical && i == 0 && s.active then t == s.(pc := Look(i + 1), skipped := s.skipped + {i})
    else t == s.(pc := Fork(i)) || t == s.(pc := Look(i + 1), skipped := s.skipped + {i})
  }

  ghost predicate ForkStep(s: State, t: State, i: nat)
  {
    i < |s.slots| &&
    (t == s.(pc := Look(i + 1), slots := s.slots[i := -1]) ||
     exists pid :: Spawned(s, t, i, pid))
  }

  ghost predicate Spawned(s: State, t: State, i: nat, pid: int)
    requires i < |s.slots|
  {
    pid > 0 && pid !in s.children &&
    t == s.(pc := Look(i + 1), slots := s.slots[i := pid], children := s.children[pid := Child(Some(i), false)])
  }

  // A step of the loop itself.
  ghost predicate OwnStep(graphical: bool, s: State, t: State)
  {
    match s.pc
    case Check => t == s.(pc := if s.caught != None then Load else Block)
    case Load => s.caught != None && t == s.(pc := Clear(s.caught.value), loaded := |s.delivered|)
    case Clear(sig) => t == s.(pc := Act(sig), caught := None, cleared := |s.delivered|)
    case Act(sig) =>
      t == s.(pc := (match ActionOf(sig) case Some(a) => Down(a) case None => Block),
        served := s.served + {(if s.loaded > 0 then s.loaded - 1 else 0)})
    case Block => t == s.(pc := Reap, blocked := true)
    case Reap => ReapStep(s, t)
    case Look(i) => LookStep(graphical, s, t, i)
    case Fork(i) => ForkStep(s, t, i)
    case Unblock => t == s.(pc := Sleep, blocked := false)
    case Sleep => t == s.(pc := Check)
    case Down(_) => false
  }

  // The handler runs for a signal.
  function Handled(s: State, sig: Sig): State
  {
    s.(caught := Some(sig), delivered := s.delivered + [sig])
  }

  // A step of everything else: SIGCHLD waits while it is blocked, a child exits, an orphan is
  // adopted, the graphical session starts or ends.
  ghost predicate OtherStep(s: State, t: State)
  {
    (exists sig :: sig != Chld && t == Handled(s, sig)) ||
    (s.pending && !s.blocked && t == Handled(s, Chld).(pending := false)) ||
    (exists pid :: Exits(s, t, pid)) ||
    (exists pid :: Adopts(s, t, pid)) ||
    t == s.(active := !s.active)
  }

  ghost predicate Exits(s: State, t: State, pid: int)
  {
    pid in s.children && t == s.(children := s.children[pid := s.children[pid].(exited := true)], pending := true)
  }

  ghost predicate Adopts(s: State, t: State, pid: int)
  {
    pid > 0 && pid !in s.children && exists e :: t == s.(children := s.children[pid := Child(None, e)])
  }

  ghost predicate Step(graphical: bool, s: State, t: State) { OwnStep(graphical, s, t) || OtherStep(s, t) }

  ghost predicate IsRun(graphical: bool, run: seq<State>)
  {
    run != [] && Start(run[0]) && forall k | 0 < k < |run| :: StepAt(graphical, run, k)
  }

  ghost predicate StepAt(graphical: bool, run: seq<State>, k: nat)
    requires 0 < k < |run|
  {
    Step(graphical, run[k - 1], run[k])
  }

  /* ---- The consoles ---- */

  // A positive slot is an unreaped child forked for that console, and every unreaped child forked
  // for a console is in its slot; a slot otherwise is 0 or, after a failed fork, -1.
  ghost predicate Matched(slots: seq<int>, children: map<int, Child>)
  {
    |slots| == TTYS &&
    (forall pid | pid in children :: pid > 0) &&
    (forall i | 0 <= i < TTYS :: slots[i] >= -1) &&
    (forall i | 0 <= i < TTYS && slots[i] > 0 :: slots[i] in children && children[slots[i]].tty == Some(i)) &&
    (forall pid | pid in children && children[pid].tty.Some? ::
      children[pid].tty.value < TTYS && slots[children[pid].tty.value] == pid)
  }

  // What the current pass went by is taken or was passed over.
  ghost predicate Passed(s: State)
    requires |s.slots| == TTYS
  {
    match s.pc
    case Look(i) => i <= TTYS && GoneBy(s, i)
    case Fork(i) => i < TTYS && s.slots[i] == 0 && GoneBy(s, i)
    case Unblock => GoneBy(s, TTYS)
    case _ => true
  }

  ghost predicate GoneBy(s: State, n: nat)
    requires n <= |s.slots|
  {
    forall i | 0 <= i < n :: s.slots[i] != 0 || i in s.skipped
  }

  ghost predicate Supervised(s: State) { Matched(s.slots, s.children) && Passed(s) }

  lemma ReleaseMatched(slots: seq<int>, children: map<int, Child>, pid: int)
    requires Matched(slots, children) && pid in children
    ensures Matched(Released(slots, pid), children - {pid})
  {
    var after := Released(slots, pid);
    forall p | p in children - {pid} && children[p].tty.Some? ensures after[children[p].tty.value] == p {
      assert p in children;
    }
  }

  lemma SlotMatched(slots: seq<int>, children: map<int, Child>, i: nat, pid: int)
    requires Matched(slots, children) && i < TTYS && slots[i] == 0
    ensures Matched(slots[i := -1], children)
    ensures pid > 0 && pid !in children ==> Matched(slots[i := pid], children[pid := Child(Some(i), false)])
  {
    forall p | p in children && children[p].tty.Some? ensures children[p].tty.value != i {
      assert p > 0;
    }
  }

  lemma ChildMatched(slots: seq<int>, children: map<int, Child>, pid: int, e: bool)
    requires Matched(slots, children) && pid > 0
    ensures pid in children ==> Matched(slots, children[pid := children[pid].(exited := e)])
    ensures pid !in children ==> Matched(slots, children[pid := Child(None, e)])
  {
  }

  lemma OwnStepKeeps(graphical: bool, s: State, t: State)
    requires Supervised(s) && OwnStep(graphical, s, t)
    ensures Supervised(t)
  {
    hide Matched, ReapStep, LookStep, ForkStep;
    Three(s.slots, s.children);
    match s.pc
    case Reap => ReapKeeps(s, t);
    case Look(i) => LookKeeps(graphical, s, t, i);
    case Fork(i) => ForkKeeps(s, t, i);
    case _ =>
  }

  lemma ReapKeeps(s: State, t: State)
    requires Supervised(s) && s.pc == Reap && ReapStep(s, t)
    ensures Supervised(t)
  {
    hide Matched;
    Three(s.slots, s.children);
    if pid :| Zombie(s, pid) && t == s.(children := s.children - {pid}, slots := Released(s.slots, pid)) {
      ReleaseMatched(s.slots, s.children, pid);
    }
  }

  lemma LookKeeps(graphical: bool, s: State, t: State, i: nat)
    requires Supervised(s) && s.pc == Look(i) && LookStep(graphical, s, t, i)
    ensures Supervised(t)
  {
    hide Matched;
    Three(s.slots, s.children);
  }

  lemma ForkKeeps(s: State, t: State, i: nat)
    requires Supervised(s) && s.pc == Fork(i) && ForkStep(s, t, i)
    ensures Supervised(t)
  {
    hide Matched;
    Three(s.slots, s.children);
    SlotMatched(s.slots, s.children, i, 0);
    if pid :| Spawned(s, t, i, pid) { SlotMatched(s.slots, s.children, i, pid); }
  }

  lemma Three(slots: seq<int>, children: map<int, Child>)
    requires Matched(slots, children)
    ensures |slots| == TTYS && forall pid | pid in children :: pid > 0
  {
  }

  lemma OtherStepFrame(s: State, t: State)
    requires OtherStep(s, t)
    ensures t.pc == s.pc && t.slots == s.slots && t.skipped == s.skipped
    ensures t.children == s.children || (exists pid :: Exits(s, t, pid)) || exists pid :: Adopts(s, t, pid)
  {
    hide Exits, Adopts;
    if pid :| Exits(s, t, pid) { ChildOnly(s, t, pid); }
    if pid :| Adopts(s, t, pid) { ChildOnly(s, t, pid); }
  }

  lemma ChildOnly(s: State, t: State, pid: int)
    requires Exits(s, t, pid) || Adopts(s, t, pid)
    ensures t.pc == s.pc && t.slots == s.slots && t.skipped == s.skipped
  {
  }

  lemma OtherStepKeeps(s: State, t: State)
    requires Supervised(s) && OtherStep(s, t)
    ensures Supervised(t)
  {
    hide Matched, OtherStep, Exits, Adopts;
    Three(s.slots, s.children);
    OtherStepFrame(s, t);
    if pid :| Exits(s, t, pid) {
      ChildKeeps(s, t, pid);
    } else if pid :| Adopts(s, t, pid) {
      ChildKeeps(s, t, pid);
    }
  }

  lemma ChildKeeps(s: State, t: State, pid: int)
    requires Matched(s.slots, s.children) && (Exits(s, t, pid) || Adopts(s, t, pid))
    ensures Matched(t.slots, t.children)
  {
    hide Matched;
    Three(s.slots, s.children);
    if Exits(s, t, pid) {
      ChildMatched(s.slots, s.children, pid, true);
    } else {
      var e :| t == s.(children := s.children[pid := Child(None, e)]);
      ChildMatched(s.slots, s.children, pid, e);
    }
  }

  // In every reachable state every console has at most one shell, and it is the one in its slot.
  lemma {:induction false} RunSupervised(graphical: bool, run: seq<State>, k: nat)
    requires IsRun(graphical, run) && k < |run|
    ensures Supervised(run[k]) && Exclusive(run[k])
  {
    hide Supervised, OwnStep, OtherStep, Start, Exclusive;
    if k == 0 {
      StartSupervised(run[0]);
    } else {
      RunSupervised(graphical, run, k - 1);
      assert StepAt(graphical, run, k);
      if OwnStep(graphical, run[k - 1], run[k]) {
        OwnStepKeeps(graphical, run[k - 1], run[k]);
      } else {
        OtherStepKeeps(run[k - 1], run[k]);
      }
    }
    SlotsDiffer(run[k]);
  }

  // No two consoles share a process, and no console has two.
  ghost predicate Exclusive(s: State)
  {
    |s.slots| == TTYS &&
    (forall i, j | 0 <= i < j < TTYS && s.slots[i] > 0 :: s.slots[i] != s.slots[j]) &&
    (forall p, q | p in s.children && q in s.children && s.children[p].tty.Some? ::
      s.children[p].tty == s.children[q].tty ==> p == q)
  }

  lemma StartSupervised(s: State)
    requires Start(s)
    ensures Supervised(s)
  {
  }

  lemma SlotsDiffer(s: State)
    requires Supervised(s)
    ensures Exclusive(s)
  {
  }

  /* ---- A pass of the steps is a run of the loops ---- */

  // From the start of the reaping to the first look, whatever else happens meanwhile, the slots
  // change as the reaping loop changes them for the processes waited for.
  lemma {:induction false} ReapPass(graphical: bool, run: seq<State>, a: nat, b: nat) returns (pids: seq<int>)
    requires IsRun(graphical, run) && a <= b < |run|
    requires forall m | a <= m < b :: run[m].pc == Reap
    ensures (forall pid | pid in pids :: pid > 0) && ReapedTo(run[a].slots, pids, run[b].slots)
    decreases b - a
  {
    hide Matched, OwnStep, OtherStep, ReapStep, IsRun;
    if a == b {
      pids := [];
    } else {
      pids := ReapPass(graphical, run, a, b - 1);
      RunSupervised(graphical, run, b - 1);
      assert StepAt(graphical, run, b) by { StepsOf(graphical, run, b); }
      var more := OneReap(graphical, run[b - 1], run[b]);
      pids := pids + more;
    }
  }

  lemma StepsOf(graphical: bool, run: seq<State>, k: nat)
    requires IsRun(graphical, run) && 0 < k < |run|
    ensures StepAt(graphical, run, k)
  {
  }

  lemma OneReap(graphical: bool, s: State, t: State) returns (pids: seq<int>)
    requires s.pc == Reap && Step(graphical, s, t) && Supervised(s)
    ensures (forall pid | pid in pids :: pid > 0) && ReapedTo(s.slots, pids, t.slots)
  {
    hide Matched, OtherStep, LookStep, ForkStep;
    Three(s.slots, s.children);
    pids := [];
    if OtherStep(s, t) {
      OtherStepFrame(s, t);
    } else if pid :| Zombie(s, pid) && t == s.(children := s.children - {pid}, slots := Released(s.slots, pid)) {
      pids := [pid];
    }
  }

  // How far the pass has come.
  function Progress(pc: Pc): nat
  {
    match pc case Look(i) => i case Fork(i) => i case _ => TTYS
  }

  // From the first look to the end of the pass, the slots change as the loop over the consoles
  // changes them, for some answers of fork and some consoles being present; the first console is
  // suppressed only in a graphical boot.
  lemma {:induction false} RespawnPass(graphical: bool, run: seq<State>, a: nat, b: nat)
      returns (active: bool, present: seq<bool>, forks: seq<int>)
    requires IsRun(graphical, run) && a <= b < |run| && run[a].pc == Look(0)
    requires forall m | a <= m < b :: run[m].pc.Look? || run[m].pc.Fork?
    ensures PassedTo(run[a].slots, graphical && active, present, forks, run[b].slots, Progress(run[b].pc))
    ensures run[b].pc == Fork(0) ==> !(graphical && active)
    ensures run[b].pc.Look? || run[b].pc.Fork? || run[b].pc == Unblock
    decreases b - a
  {
    hide Matched, OwnStep, OtherStep, IsRun;
    if a == b {
      RunSupervised(graphical, run, b);
      active, present, forks := false, [false, false, false], [0, 0, 0];
    } else {
      active, present, forks := RespawnPass(graphical, run, a, b - 1);
      RunSupervised(graphical, run, b - 1);
      assert StepAt(graphical, run, b) by { StepsOf(graphical, run, b); }
      active, present, forks := OneLook(graphical, run[a].slots, run[b - 1], run[b], active, present, forks);
    }
  }

  lemma OneLook(graphical: bool, before: seq<int>, s: State, t: State, active: bool, present: seq<bool>,
                forks: seq<int>)
      returns (active': bool, present': seq<bool>, forks': seq<int>)
    requires (s.pc.Look? || s.pc.Fork?) && Step(graphical, s, t) && Supervised(s)
    requires PassedTo(before, graphical && active, present, forks, s.slots, Progress(s.pc))
    requires s.pc == Fork(0) ==> !(graphical && active)
    ensures PassedTo(before, graphical && active', present', forks', t.slots, Progress(t.pc))
    ensures t.pc == Fork(0) ==> !(graphical && active')
    ensures t.pc.Look? || t.pc.Fork? || t.pc == Unblock
  {
    hide Matched, OtherStep, LookStep, ForkStep, PassedTo;
    Three(s.slots, s.children);
    active', present', forks' := active, present, forks;
    if OtherStep(s, t) {
      OtherStepFrame(s, t);
    } else if s.pc.Fork? {
      assert s.slots[s.pc.i] == 0;
      present', forks' := ForkPasses(before, s, t, s.pc.i, graphical && active, present, forks);
    } else {
      active', present' := LookPasses(graphical, before, s, t, s.pc.i, active, present, forks);
    }
  }

  lemma LookPasses(graphical: bool, before: seq<int>, s: State, t: State, i: nat, active: bool, present: seq<bool>,
                   forks: seq<int>)
      returns (active': bool, present': seq<bool>)
    requires i <= TTYS == |s.slots| && LookStep(graphical, s, t, i)
    requires PassedTo(before, graphical && active, present, forks, s.slots, i)
    ensures PassedTo(before, graphical && active', present', forks, t.slots, Progress(t.pc))
    ensures t.pc == Fork(0) ==> !(graphical && active')
    ensures t.pc.Look? || t.pc.Fork? || t.pc == Unblock
  {
    active', present' := active, present;
    if i < TTYS {
      if i == 0 { active' := s.active; }
      present' := present[i := false];
    }
  }

  lemma ForkPasses(before: seq<int>, s: State, t: State, i: nat, suppressed: bool, present: seq<bool>, forks: seq<int>)
      returns (present': seq<bool>, forks': seq<int>)
    requires i < TTYS == |s.slots| && ForkStep(s, t, i) && s.slots[i] == 0 && (i == 0 ==> !suppressed)
    requires PassedTo(before, suppressed, present, forks, s.slots, i)
    ensures PassedTo(before, suppressed, present', forks', t.slots, i + 1) && t.pc == Look(i + 1)
  {
    var forked := t.slots[i];
    assert t.slots == s.slots[i := forked];
    present', forks' := present[i := true], forks[i := forked];
  }

  // How many steps of its own a pass over the consoles has left at most.
  function Left(pc: Pc): nat
  {
    match pc
    case Look(i) => if i <= 3 then 2 * (3 - i) + 1 else 1
    case Fork(i) => if i < 3 then 2 * (3 - i) else 0
    case _ => 0
  }

  // A step of the pass goes from a console to its fork or to the next console, and brings the end
  // of the pass nearer, whatever else happens in between.
  lemma PassMovesOn(graphical: bool, s: State, t: State)
    requires Supervised(s) && (s.pc.Look? || s.pc.Fork?) && OwnStep(graphical, s, t)
    ensures Left(t.pc) < Left(s.pc) && (Left(t.pc) == 0 ==> t.pc == Unblock)
    ensures t.pc.Fork? ==> s.pc == Look(t.pc.i)
    ensures t.pc.Look? ==> t.pc.i > 0 && (s.pc == Look(t.pc.i - 1) || s.pc == Fork(t.pc.i - 1))
  {
    hide Matched;
    Three(s.slots, s.children);
  }

  // The pass can go from a console to its fork exactly when no shell is there and the console is
  // not suppressed.
  lemma ForkExactly(graphical: bool, s: State, i: nat)
    requires s.pc == Look(i) && i < |s.slots|
    ensures OwnStep(graphical, s, s.(pc := Fork(i))) <==> s.slots[i] == 0 && !(graphical && i == 0 && s.active)
  {
  }

  // A slot is only cleared for a shell that has exited and is reaped, and reaping goes on until no
  // exited child is left.
  lemma ClearedHadExited(graphical: bool, s: State, t: State, i: nat)
    requires Supervised(s) && Supervised(t) && Step(graphical, s, t)
    ensures i < TTYS && s.slots[i] > 0 && t.slots[i] != s.slots[i] ==>
      s.children[s.slots[i]].exited && t.slots[i] == 0 && s.slots[i] !in t.children
    ensures s.pc == Reap && t.pc != Reap ==> forall pid | pid in t.children :: !t.children[pid].exited
  {
    hide Matched, OtherStep, LookStep, ForkStep;
    Three(s.slots, s.children);
    if OtherStep(s, t) {
      OtherStepFrame(s, t);
    } else if s.pc == Reap {
      ReapClears(s, t);
      if t.pc != Reap {
        forall pid | pid in t.children ensures !t.children[pid].exited { assert !Zombie(s, pid); }
      }
    } else if s.pc.Fork? {
      assert s.slots[s.pc.i] == 0;
      ForkOnly(s, t, s.pc.i);
    } else if s.pc.Look? {
      LookOnly(graphical, s, t, s.pc.i);
    }
  }

  lemma ReapClears(s: State, t: State)
    requires ReapStep(s, t)
    ensures |t.slots| == |s.slots| && forall i | 0 <= i < |s.slots| && t.slots[i] != s.slots[i] ::
      Zombie(s, s.slots[i]) && t.slots[i] == 0 && s.slots[i] !in t.children
  {
  }

  lemma ForkOnly(s: State, t: State, i: nat)
    requires ForkStep(s, t, i)
    ensures |t.slots| == |s.slots| && forall k | 0 <= k < |s.slots| && k != i :: t.slots[k] == s.slots[k]
  {
  }

  lemma LookOnly(graphical: bool, s: State, t: State, i: nat)
    requires LookStep(graphical, s, t, i)
    ensures t.slots == s.slots
  {
  }

  lemma OthersKeepPlace(s: State, t: State)
    requires OtherStep(s, t)
    ensures Left(t.pc) == Left(s.pc)
  {
    OtherStepFrame(s, t);
  }

  // A console whose fork failed is never tried again.
  lemma {:induction false} FailedForkIsForGood(graphical: bool, run: seq<State>, j: nat, k: nat, i: nat)
    requires IsRun(graphical, run) && j <= k < |run| && i < TTYS && |run[j].slots| == TTYS && run[j].slots[i] == -1
    ensures |run[k].slots| == TTYS && run[k].slots[i] == -1
    decreases k - j
  {
    if j < k {
      hide Supervised, IsRun, Exclusive;
      FailedForkIsForGood(graphical, run, j, k - 1, i);
      FailureStays(graphical, run, k, i);
    }
  }

  lemma FailureStays(graphical: bool, run: seq<State>, k: nat, i: nat)
    requires IsRun(graphical, run) && 0 < k < |run| && i < TTYS
    requires |run[k - 1].slots| == TTYS && run[k - 1].slots[i] == -1
    ensures |run[k].slots| == TTYS && run[k].slots[i] == -1
  {
    hide Supervised, Exclusive, Step;
    RunSupervised(graphical, run, k - 1);
    assert StepAt(graphical, run, k);
    StepKeepsFailure(graphical, run[k - 1], run[k], i);
  }

  lemma StepKeepsFailure(graphical: bool, s: State, t: State, i: nat)
    requires Supervised(s) && Step(graphical, s, t) && i < TTYS && |s.slots| == TTYS && s.slots[i] == -1
    ensures |t.slots| == TTYS && t.slots[i] == -1
  {
    hide Matched, OtherStep, ReapStep, LookStep, ForkStep;
    Three(s.slots, s.children);
    if OwnStep(graphical, s, t) {
      match s.pc
      case Reap => ReapKeepsFailure(s, t, i);
      case Look(_) => assert t.slots == s.slots by { LookKeepsSlots(graphical, s, t); }
      case Fork(n) => ForkKeepsFailure(s, t, n, i);
      case _ =>
    } else {
      OtherStepSlots(s, t);
    }
  }

  lemma OtherStepSlots(s: State, t: State)
    requires OtherStep(s, t)
    ensures t.slots == s.slots
  {
  }

  lemma LookKeepsSlots(graphical: bool, s: State, t: State)
    requires s.pc.Look? && LookStep(graphical, s, t, s.pc.i)
    ensures t.slots == s.slots
  {
  }

  lemma ReapKeepsFailure(s: State, t: State, i: nat)
    requires ReapStep(s, t) && i < |s.slots| && s.slots[i] == -1 && forall pid | pid in s.children :: pid > 0
    ensures |t.slots| == |s.slots| && t.slots[i] == -1
  {
  }

  lemma ForkKeepsFailure(s: State, t: State, n: nat, i: nat)
    requires ForkStep(s, t, n) && i < |s.slots| && s.slots[i] == -1 && n < |s.slots| && s.slots[n] == 0
    ensures |t.slots| == |s.slots| && t.slots[i] == -1
  {
  }

  // In a graphical boot the pass comes to fork for the first console only after having looked and
  // seen no active session, with nothing of its own done in between.
  lemma {:induction false} FirstConsoleSuppressed(run: seq<State>, k: nat) returns (j: nat)
    requires IsRun(true, run) && k < |run| && run[k].pc == Fork(0)
    ensures j < k && run[j].pc == Look(0) && !run[j].active && forall m | j < m <= k :: run[m].pc == Fork(0)
  {
    assert k > 0;
    assert StepAt(true, run, k);
    PrecedesFork(run[k - 1], run[k]);
    if run[k - 1].pc == Fork(0) {
      j := FirstConsoleSuppressed(run, k - 1);
    } else {
      j := k - 1;
    }
  }

  lemma PrecedesFork(s: State, t: State)
    requires Step(true, s, t) && t.pc == Fork(0)
    ensures s.pc == Fork(0) || (s.pc == Look(0) && !s.active)
  {
    hide OtherStep, ReapStep, ForkStep, Released;
    if OtherStep(s, t) {
      OtherStepFrame(s, t);
    } else if s.pc.Reap? || s.pc.Fork? {
      NotToFork(s, t);
    }
  }

  lemma NotToFork(s: State, t: State)
    requires (s.pc == Reap && ReapStep(s, t)) || (s.pc.Fork? && ForkStep(s, t, s.pc.i))
    ensures !t.pc.Fork?
  {
    hide Released;
  }

  /* ---- Signals ---- */

  // caught_sig holds the last signal since the last clear, and what the loop is about to act on
  // is the last one at the last load.
  ghost predicate Recorded(s: State)
  {
    s.loaded <= |s.delivered| && s.cleared <= |s.delivered| &&
    s.caught == (if s.cleared == |s.delivered| then None else Some(s.delivered[|s.delivered| - 1])) &&
    (s.pc.Load? ==> s.caught != None) &&
    (s.pc.Clear? || s.pc.Act? ==> s.loaded > 0 && s.pc.sig == s.delivered[s.loaded - 1]) &&
    (forall n | n in s.served :: n < |s.delivered|) &&
    (s.pc.Down? ==> exists n :: n in s.served && n < |s.delivered| && ActionOf(s.delivered[n]) == Some(s.pc.action))
  }

  // What a step of the loop does to the signal bookkeeping.
  lemma OwnStepSignals(graphical: bool, s: State, t: State)
    requires OwnStep(graphical, s, t)
    ensures t.delivered == s.delivered
    ensures !s.pc.Clear? ==> t.caught == s.caught && t.cleared == s.cleared
    ensures s.pc.Clear? ==> t.caught == None && t.cleared == |s.delivered| && t.pc == Act(s.pc.sig)
    ensures !s.pc.Load? ==> t.loaded == s.loaded && !t.pc.Clear?
    ensures s.pc.Load? ==> t.loaded == |s.delivered| && s.caught != None && t.pc == Clear(s.caught.value)
    ensures !s.pc.Act? ==> t.served == s.served && !t.pc.Down?
    ensures s.pc.Act? ==> t.served == s.served + {if s.loaded > 0 then s.loaded - 1 else 0}
    ensures s.pc.Act? ==> t.pc == (match ActionOf(s.pc.sig) case Some(a) => Down(a) case None => Block)
    ensures t.pc.Act? ==> s.pc.Clear?
    ensures t.pc.Load? ==> s.caught != None && t.caught == s.caught
  {
    hide ReapStep, LookStep, ForkStep;
    match s.pc
    case Reap => QuietStep(graphical, s, t);
    case Look(_) => QuietStep(graphical, s, t);
    case Fork(_) => QuietStep(graphical, s, t);
    case _ =>
  }

  lemma QuietStep(graphical: bool, s: State, t: State)
    requires s.pc.Reap? || s.pc.Look? || s.pc.Fork?
    requires OwnStep(graphical, s, t)
    ensures t.delivered == s.delivered && t.caught == s.caught && t.cleared == s.cleared && t.loaded == s.loaded &&
      t.served == s.served
    ensures t.pc.Reap? || t.pc.Look? || t.pc.Fork? || t.pc.Unblock?
  {
    hide Released;
  }

  lemma OtherStepSignals(s: State, t: State)
    requires OtherStep(s, t)
    ensures t.pc == s.pc && t.served == s.served && t.loaded == s.loaded && t.cleared == s.cleared
    ensures (t.caught == s.caught && t.delivered == s.delivered) ||
      (exists sig :: t.caught == Some(sig) && t.delivered == s.delivered + [sig])
  {
  }

  lemma StepRecords(graphical: bool, s: State, t: State)
    requires Recorded(s) && Step(graphical, s, t)
    ensures Recorded(t) && s.delivered <= t.delivered
  {
    hide OwnStep, OtherStep;
    if OwnStep(graphical, s, t) {
      OwnStepSignals(graphical, s, t);
      if s.pc.Act? { assert s.loaded - 1 in t.served; }
    } else {
      OtherStepSignals(s, t);
      if s.pc.Down? {
        var n :| n in s.served && n < |s.delivered| && ActionOf(s.delivered[n]) == Some(s.pc.action);
        assert n in t.served && t.delivered[n] == s.delivered[n];
      }
    }
  }

  lemma {:induction false} RunRecorded(graphical: bool, run: seq<State>, k: nat)
    requires IsRun(graphical, run) && k < |run|
    ensures Recorded(run[k])
  {
    hide Recorded, OwnStep, OtherStep;
    if k == 0 {
      StartRecorded(run[0]);
    } else {
      RunRecorded(graphical, run, k - 1);
      assert StepAt(graphical, run, k);
      StepRecords(graphical, run[k - 1], run[k]);
    }
  }

  lemma StartRecorded(s: State)
    requires Start(s)
    ensures Recorded(s)
  {
  }

  // The system only goes down for a signal that was delivered, and for the action that signal
  // asks for.
  lemma ShutdownWasAsked(graphical: bool, run: seq<State>, k: nat) returns (n: nat)
    requires IsRun(graphical, run) && k < |run| && run[k].pc.Down?
    ensures n in run[k].served && n < |run[k].delivered|
    ensures var sig := run[k].delivered[n];
      match run[k].pc.action
      case Reboot => sig == Int
      case PowerOff => sig == Usr1 || sig == Pwr
      case Halt => sig == Usr2
  {
    RunRecorded(graphical, run, k);
    n :| n in run[k].served && n < |run[k].delivered| && ActionOf(run[k].delivered[n]) == Some(run[k].pc.action);
  }

  // Once a signal other than a child's exit has been acted on, the system is going down.
  ghost predicate DownIfServed(s: State)
  {
    forall n | n in s.served && n < |s.delivered| && s.delivered[n] != Chld :: s.pc.Down?
  }

  lemma StepGoesDown(graphical: bool, s: State, t: State)
    requires Recorded(s) && DownIfServed(s) && Step(graphical, s, t)
    ensures DownIfServed(t)
  {
    hide OwnStep, OtherStep;
    if OwnStep(graphical, s, t) {
      OwnStepSignals(graphical, s, t);
      DownIsFinal(graphical, s, t);
    } else {
      OtherStepSignals(s, t);
    }
  }

  lemma DownIsFinal(graphical: bool, s: State, t: State)
    requires OwnStep(graphical, s, t)
    ensures !s.pc.Down?
  {
  }

  lemma {:induction false} ServedGoesDown(graphical: bool, run: seq<State>, k: nat)
    requires IsRun(graphical, run) && k < |run|
    ensures DownIfServed(run[k])
  {
    hide Recorded, DownIfServed, OwnStep, OtherStep;
    if k == 0 {
      StartServesNone(run[0]);
    } else {
      ServedGoesDown(graphical, run, k - 1);
      RunRecorded(graphical, run, k - 1);
      assert StepAt(graphical, run, k);
      StepGoesDown(graphical, run[k - 1], run[k]);
    }
  }

  lemma StartServesNone(s: State)
    requires Start(s)
    ensures DownIfServed(s)
  {
  }

  // A signal that is gone from caught_sig, overwritten by a later one or cleared, without being
  // loaded.
  ghost predicate Wiped(s: State, n: nat)
  {
    n < |s.delivered| && n !in s.served && !InHand(s, n) && (n + 1 < |s.delivered| || s.caught == None)
  }

  lemma StepKeepsWiped(graphical: bool, s: State, t: State, n: nat)
    requires Recorded(s) && Step(graphical, s, t) && Wiped(s, n)
    ensures Wiped(t, n)
  {
    hide OwnStep, OtherStep;
    if OwnStep(graphical, s, t) { OwnStepSignals(graphical, s, t); } else { OtherStepSignals(s, t); }
  }

  // Such a signal, a shutdown request included, is never acted on.
  lemma {:induction false} WipedIsLost(graphical: bool, run: seq<State>, j: nat, k: nat, n: nat)
    requires IsRun(graphical, run) && j <= k < |run| && Wiped(run[j], n)
    ensures Wiped(run[k], n)
    decreases k - j
  {
    hide Wiped, Recorded, OwnStep, OtherStep;
    if j < k {
      WipedIsLost(graphical, run, j, k - 1, n);
      RunRecorded(graphical, run, k - 1);
      assert StepAt(graphical, run, k);
      StepKeepsWiped(graphical, run[k - 1], run[k], n);
    }
  }

  // The system stays up as long as every request for a shutdown has been wiped.
  lemma NoShutdownFollows(graphical: bool, run: seq<State>, j: nat, k: nat)
    requires IsRun(graphical, run) && j <= k < |run|
    requires forall n | 0 <= n < |run[k].delivered| && run[k].delivered[n] != Chld :: Wiped(run[j], n)
    ensures !run[k].pc.Down?
  {
    hide IsRun, InHand;
    if run[k].pc.Down? {
      var n := ShutdownWasAsked(graphical, run, k);
      WipedIsLost(graphical, run, j, k, n);
    }
  }

  // The loop has loaded the signal and not acted yet.
  ghost predicate InHand(s: State, n: nat) { (s.pc.Clear? || s.pc.Act?) && s.loaded == n + 1 }

  // A loaded signal is acted on, whatever happens meanwhile.
  lemma {:induction false} LoadedIsServed(graphical: bool, run: seq<State>, j: nat, k: nat, n: nat)
    requires IsRun(graphical, run) && j <= k < |run| && (InHand(run[j], n) || n in run[j].served)
    ensures InHand(run[k], n) || n in run[k].served
    decreases k - j
  {
    hide InHand, Step;
    if j < k {
      LoadedIsServed(graphical, run, j, k - 1, n);
      assert StepAt(graphical, run, k);
      StepServes(graphical, run[k - 1], run[k], n);
    }
  }

  lemma StepServes(graphical: bool, s: State, t: State, n: nat)
    requires Step(graphical, s, t) && (InHand(s, n) || n in s.served)
    ensures InHand(t, n) || n in t.served
  {
    hide OwnStep, OtherStep;
    if OwnStep(graphical, s, t) { OwnStepSignals(graphical, s, t); } else { OtherStepSignals(s, t); }
  }

  // The loop loads signal n, the last one delivered, in the step behind state j.
  predicate LoadsAt(run: seq<State>, j: nat, n: nat)
    requires j + 1 < |run|
  {
    run[j].pc == Load && run[j + 1].pc.Clear? && |run[j].delivered| == n + 1
  }

  // And a signal that is acted on was the last one delivered when the loop loaded caught_sig.
  lemma {:induction false} ServedWasLast(graphical: bool, run: seq<State>, k: nat, n: nat) returns (j: nat)
    requires IsRun(graphical, run) && k < |run|
    requires n in run[k].served || InHand(run[k], n)
    ensures j < k && LoadsAt(run, j, n)
  {
    assert k > 0;
    RunRecorded(graphical, run, k - 1);
    assert StepAt(graphical, run, k);
    ServedStep(graphical, run[k - 1], run[k], n);
    if LoadsAt(run, k - 1, n) {
      j := k - 1;
    } else {
      j := ServedWasLast(graphical, run, k - 1, n);
    }
  }

  lemma ServedStep(graphical: bool, s: State, t: State, n: nat)
    requires Recorded(s) && Step(graphical, s, t)
    requires n in t.served || InHand(t, n)
    ensures n in s.served || InHand(s, n) || (s.pc == Load && t.pc.Clear? && |s.delivered| == n + 1)
  {
    hide OwnStep, OtherStep;
    if OwnStep(graphical, s, t) { OwnStepSignals(graphical, s, t); } else { OtherStepSignals(s, t); }
  }

  // A signal is loaded and acted on exactly when it was the last one delivered at some load.
  lemma ActedOnExactly(graphical: bool, run: seq<State>, k: nat, n: nat)
    requires IsRun(graphical, run) && k < |run|
    ensures n in run[k].served || InHand(run[k], n) <==> exists j :: 0 <= j < k && LoadsAt(run, j, n)
  {
    hide InHand, IsRun;
    if n in run[k].served || InHand(run[k], n) { var j := ServedWasLast(graphical, run, k, n); }
    if j :| 0 <= j < k && LoadsAt(run, j, n) {
      StepsOf(graphical, run, j + 1);
      LoadTakes(graphical, run[j], run[j + 1], n);
      LoadedIsServed(graphical, run, j + 1, k, n);
    }
  }

  lemma LoadTakes(graphical: bool, s: State, t: State, n: nat)
    requires Step(graphical, s, t) && s.pc == Load && t.pc.Clear? && |s.delivered| == n + 1
    ensures InHand(t, n)
  {
    hide OwnStep, OtherStep;
    if OwnStep(graphical, s, t) { OwnStepSignals(graphical, s, t); } else { OtherStepSignals(s, t); }
  }

  // A reboot request wiped behind a child exit.
  ghost predicate Lost(s: State)
  {
    s.delivered == [Chld, Int] && Wiped(s, 1)
  }

  // A run in which a reboot request arrives between the load and the clear of caught_sig for an
  // earlier child exit: the request is wiped, for good as above, and without another request no
  // shutdown follows.
  lemma RequestLostWitness(s0: State)
    requires Start(s0) && s0.pending
    ensures exists run: seq<State> :: IsRun(false, run) && run[0] == s0 && Lost(run[|run| - 1])
  {
    var s1 := Handled(s0, Chld).(pending := false);
    var s2 := s1.(pc := Load);
    var s3 := s2.(pc := Clear(Chld), loaded := 1);
    var s4 := Handled(s3, Int);
    var s5 := s4.(pc := Act(Chld), caught := None, cleared := 2);
    var s6 := s5.(pc := Block, served := s5.served + {0});
    var run := [s0, s1, s2, s3, s4, s5, s6];
    assert OtherStep(s0, s1) && OwnStep(false, s1, s2) && OwnStep(false, s2, s3) && OtherStep(s3, s4);
    assert OwnStep(false, s4, s5) && OwnStep(false, s5, s6);
    assert IsRun(false, run) && Lost(run[6]);
  }
}
