/** The spin lock of include/arch/armv7a/asm.h as steps of any number of cores. Loads and stores are
    atomic and in program order; every core has an exclusive monitor for the lock word (section A3.4
    of ARM DDI 0406C). */
module Spinlock {

  /** Where a core is: outside, at one of the three instructions of the loop body, at the loop test, or
      past `spin_lock` and not yet past the store of `spin_unlock`. */
  datatype Pc = Outside | AtLdrex | AtCmp | AtStrex | AtTest | Inside

  /** A core: the register r0, the Z flag, and the variable `result`. */
  datatype Core = Core(pc: Pc, r0: nat, z: bool, result: nat)

  /** `locked`, the cores whose monitor is in the exclusive state, and the cores. */
  datatype State = State(locked: nat, exclusive: set<nat>, cores: seq<Core>)

  datatype Action =
    | Enter          // result = 1
    | Ldrex          // ldrex r0, [lock]
    | Cmp            // cmp r0, #0
    | Strexeq        // strexeq result, 1, [lock]
    | Test           // while (result)
    | Unlock         // lock->locked = 0
    | LoseMonitor    // the monitor may be cleared at any time

  predicate Init(s: State) {
    && s.locked == 0 && s.exclusive == {}
    && forall c :: 0 <= c < |s.cores| ==> s.cores[c].pc == Outside
  }

  predicate Enabled(s: State, c: nat, a: Action) {
    c < |s.cores| &&
    match a
    case Enter => s.cores[c].pc == Outside
    case Ldrex => s.cores[c].pc == AtLdrex
    case Cmp => s.cores[c].pc == AtCmp
    case Strexeq => s.cores[c].pc == AtStrex
    case Test => s.cores[c].pc == AtTest
    case Unlock => s.cores[c].pc == Inside
    case LoseMonitor => true
  }

  /** A store to the lock word, exclusive or not, clears the monitors of all cores. */
  function Next(s: State, c: nat, a: Action): State
    requires Enabled(s, c, a)
  {
    var k := s.cores[c];
    match a
    case Enter => s.(cores := s.cores[c := k.(pc := AtLdrex, result := 1)])
    case Ldrex => s.(exclusive := s.exclusive + {c}, cores := s.cores[c := k.(pc := AtCmp, r0 := s.locked)])
    case Cmp => s.(cores := s.cores[c := k.(pc := AtStrex, z := k.r0 == 0)])
    case Strexeq =>
      if !k.z then
        s.(cores := s.cores[c := k.(pc := AtTest)])
      else if c in s.exclusive then
        State(1, {}, s.cores[c := k.(pc := AtTest, result := 0)])
      else
        s.(cores := s.cores[c := k.(pc := AtTest, result := 1)])
    case Test => s.(cores := s.cores[c := k.(pc := if k.result != 0 then AtLdrex else Inside)])
    case Unlock => State(0, {}, s.cores[c := k.(pc := Outside)])
    case LoseMonitor => s.(exclusive := s.exclusive - {c})
  }

  /** The one instruction a core can run next, by where it is; its monitor may be cleared at any point. */
  lemma OneInstruction(s: State, c: nat, a: Action)
    requires c < |s.cores| && a != LoseMonitor
    ensures Enabled(s, c, a) <==>
            match s.cores[c].pc
            case Outside => a == Enter
            case AtLdrex => a == Ldrex
            case AtCmp => a == Cmp
            case AtStrex => a == Strexeq
            case AtTest => a == Test
            case Inside => a == Unlock
  {
  }

  /** Where each instruction leaves its core: through the loop in order, back to its start or past it by
      `result`, and outside after the store of the unlock. The lock word is written by the exclusive store
      that succeeds and by the unlock, and no core but the one that runs moves. */
  lemma ControlFlow(s: State, c: nat, a: Action)
    requires Enabled(s, c, a)
    ensures var t := Next(s, c, a);
            && |t.cores| == |s.cores|
            && (t.cores[c].pc ==
                  match a
                  case Enter => AtLdrex
                  case Ldrex => AtCmp
                  case Cmp => AtStrex
                  case Strexeq => AtTest
                  case Test => if s.cores[c].result != 0 then AtLdrex else Inside
                  case Unlock => Outside
                  case LoseMonitor => s.cores[c].pc)
            && t.locked == (if a == Unlock then 0 else if a == Strexeq && s.cores[c].z && c in s.exclusive then 1 else s.locked)
            && forall d :: 0 <= d < |s.cores| && d != c ==> t.cores[d] == s.cores[d]
  {
  }

  /** A run: every state follows from the one before by one action of one core. */
  predicate Run(trace: seq<State>, who: seq<nat>, what: seq<Action>) {
    && |trace| == |who| + 1 == |what| + 1 && Init(trace[0])
    && forall i :: 0 <= i < |who| ==> Enabled(trace[i], who[i], what[i]) && trace[i + 1] == Next(trace[i], who[i], what[i])
  }

  /** The store of this core succeeded and it has not unlocked since. */
  predicate Holds(s: State, c: nat) {
    c < |s.cores| && (s.cores[c].pc == Inside || (s.cores[c].pc == AtTest && s.cores[c].result == 0))
  }

  predicate CoreOk(s: State, c: nat)
    requires c < |s.cores|
  {
    var k := s.cores[c];
    && (k.pc in {AtLdrex, AtCmp, AtStrex} ==> k.result != 0)
    && (k.pc == AtStrex ==> k.z == (k.r0 == 0))
    && (k.pc in {AtCmp, AtStrex} && c in s.exclusive ==> k.r0 == s.locked)
  }

  ghost predicate Inv(s: State) {
    && s.locked <= 1
    && (forall c :: 0 <= c < |s.cores| ==> CoreOk(s, c))
    && (forall c :: Holds(s, c) ==> s.locked == 1)
    && (s.locked == 1 ==> exists c :: Holds(s, c))
    && (forall c, d :: Holds(s, c) && Holds(s, d) ==> c == d)
  }

  lemma InitInv(s: State)
    requires Init(s)
    ensures Inv(s)
  {
  }

  /** No other core's claim changes, except that a store ends it. */
  lemma NextHolds(s: State, c: nat, a: Action, d: nat)
    requires Inv(s) && Enabled(s, c, a)
    ensures var s' := Next(s, c, a);
            Holds(s', d) <==> if d == c && a == Unlock then false
                              else Holds(s, d) || (d == c && a == Strexeq && s.cores[c].z && c in s.exclusive)
  {
    assert CoreOk(s, c);
  }

  lemma NextInv(s: State, c: nat, a: Action)
    requires Inv(s) && Enabled(s, c, a)
    ensures Inv(Next(s, c, a))
  {
    var s' := Next(s, c, a);
    assert CoreOk(s, c);
    forall d: nat { NextHolds(s, c, a, d); }
    forall d: nat | d < |s'.cores| ensures CoreOk(s', d) { assert CoreOk(s, d); }
    if a == Unlock {
      assert Holds(s, c);
    } else if a == Strexeq && s.cores[c].z && c in s.exclusive {
      assert Holds(s', c);
    } else if s'.locked == 1 {
      var d :| Holds(s, d);
      assert Holds(s', d);
    }
  }

  lemma {:induction false} RunInv(trace: seq<State>, who: seq<nat>, what: seq<Action>, i: nat)
    requires Run(trace, who, what) && i < |trace|
    ensures Inv(trace[i])
  {
    if i == 0 {
      InitInv(trace[0]);
    } else {
      RunInv(trace, who, what, i - 1);
      NextInv(trace[i - 1], who[i - 1], what[i - 1]);
    }
  }

  /** Mutual exclusion, at every point of every run of any number of cores: at most one core is past
      `spin_lock` and before the store of `spin_unlock`, and `locked` is 1 exactly when some core's
      store succeeded and was not undone yet. */
  lemma MutualExclusion(trace: seq<State>, who: seq<nat>, what: seq<Action>, i: nat, c: nat, d: nat)
    requires Run(trace, who, what) && i < |trace| && c < |trace[i].cores| && d < |trace[i].cores|
    ensures trace[i].cores[c].pc == Inside && trace[i].cores[d].pc == Inside ==> c == d
    ensures trace[i].locked == 1 <==> exists e :: Holds(trace[i], e)
    ensures trace[i].cores[c].pc == Inside ==> trace[i].locked == 1
  {
    RunInv(trace, who, what, i);
    assert trace[i].cores[c].pc == Inside ==> Holds(trace[i], c);
    assert trace[i].cores[d].pc == Inside ==> Holds(trace[i], d);
  }

  // ---------------------------------------------------------------- the lock it implements

  datatype Owner = Free | Owned(core: nat)

  /** Who has the lock in the plain sense. */
  ghost predicate OwnerIs(s: State, o: Owner) {
    match o
    case Free => s.locked == 0
    case Owned(c) => Holds(s, c)
  }

  /** The steps of a plain lock: nothing, a free lock is taken, or its owner gives it back. */
  predicate PlainStep(o: Owner, o': Owner, c: nat) {
    o' == o || (o == Free && o' == Owned(c)) || (o == Owned(c) && o' == Free)
  }

  /** Every step of a core is a step of a plain lock: it is taken by the exclusive store that succeeds
      and only when it is free, and given back only by its owner. */
  lemma RefinesPlainLock(s: State, c: nat, a: Action, o: Owner) returns (o': Owner)
    requires Inv(s) && Enabled(s, c, a) && OwnerIs(s, o)
    ensures OwnerIs(Next(s, c, a), o') && PlainStep(o, o', c)
    ensures o == Free && o' == Owned(c) <==> a == Strexeq && s.cores[c].z && c in s.exclusive
    ensures a == Unlock <==> o == Owned(c) && o' == Free
  {
    assert CoreOk(s, c);
    forall d: nat { NextHolds(s, c, a, d); }
    if a == Strexeq && s.cores[c].z && c in s.exclusive {
      o' := Owned(c);
    } else if a == Unlock {
      assert Holds(s, c);
      o' := Free;
    } else {
      o' := o;
    }
  }

  /** A core that finds the lock free and is not disturbed has it after one turn of the loop. */
  lemma UndisturbedCoreEnters(s: State, c: nat)
    requires c < |s.cores| && s.cores[c].pc == AtLdrex && s.locked == 0
    ensures var s1 := Next(s, c, Ldrex);
            var s2 := Next(s1, c, Cmp);
            var s3 := Next(s2, c, Strexeq);
            Next(s3, c, Test).cores[c].pc == Inside
  {
    var s3 := Next(Next(Next(s, c, Ldrex), c, Cmp), c, Strexeq);
    assert s3.locked == 1 && s3.cores[c].result == 0;
  }

  /** A core that finds the lock taken stays outside, whatever happens to its monitor. */
  lemma TakenLockKeepsOut(s: State, c: nat)
    requires Inv(s) && c < |s.cores| && s.cores[c].pc == AtLdrex && s.locked == 1
    ensures var s3 := Next(Next(Next(s, c, Ldrex), c, Cmp), c, Strexeq);
            s3.locked == 1 && Next(s3, c, Test).cores[c].pc == AtLdrex
  {
    assert CoreOk(s, c);
    var s3 := Next(Next(Next(s, c, Ldrex), c, Cmp), c, Strexeq);
    assert s3.cores[c].result != 0;
  }
}
