/** A message shared by several sender threads, freed by the last of them. */
module Scheduled {
  import opened Phrases

  /**
   * `waiting` holds one entry for every sender thread that has not run yet, named by its user; `targets`
   * lists the users of all threads ever created for the message.  `frees` counts calls of
   * schedule_message_free.
   */
  datatype Sched = Sched(saying: Saying, max: nat, current: nat, frees: nat, targets: seq<nat>, waiting: multiset<nat>)

  /** schedule_message_create and one thread per target. */
  function Create(saying: Saying, max: nat, targets: seq<nat>): Sched {
    Sched(saying, max, 0, 0, targets, multiset(targets))
  }

  /** schedule_message_increase. */
  function Increase(m: Sched): Sched {
    var current := m.current + 1;
    m.(current := current, frees := if m.max <= current then m.frees + 1 else m.frees)
  }

  /** The thread of user `u` has run. */
  function Finish(m: Sched, u: nat): Sched {
    Increase(m.(waiting := m.waiting - multiset{u}))
  }

  ghost predicate Distinct(s: seq<nat>) {
    forall j, k | 0 <= j < k < |s| :: s[j] != s[k]
  }

  ghost predicate Inv(m: Sched) {
    && |m.targets| == m.max
    && Distinct(m.targets)
    && m.waiting <= multiset(m.targets)
    && m.current + |m.waiting| == m.max
    && m.frees == (if m.max >= 1 && m.current == m.max then 1 else 0)
  }

  lemma CreateInv(saying: Saying, max: nat, targets: seq<nat>)
    requires |targets| == max && Distinct(targets)
    ensures Inv(Create(saying, max, targets))
  {
  }

  /**
   * A thread that has not run finds its message alive, and counting it keeps the balance: the message is
   * freed in this step exactly when this was the last thread.
   */
  lemma FinishKeeps(m: Sched, u: nat)
    requires Inv(m) && u in m.waiting
    ensures m.frees == 0
    ensures Inv(Finish(m, u))
    ensures Finish(m, u).frees == 1 <==> m.waiting == multiset{u}
  {
    assert |m.waiting - multiset{u}| == |m.waiting| - 1;
    assert m.waiting == multiset{u} + (m.waiting - multiset{u});
  }

  lemma {:induction false} CountDistinct(s: seq<nat>, u: nat)
    requires Distinct(s)
    ensures multiset(s)[u] == if u in s then 1 else 0
  {
    if s != [] {
      var t := s[..|s| - 1];
      assert s == t + [s[|s| - 1]];
      CountDistinct(t, u);
    }
  }
}
