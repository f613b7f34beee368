/** The life of a pending withdrawal over whole runs of the ledger. */
module Unbonding {
  import opened Prelude
  import opened Ledger
  import opened Emission
  import opened Staking
  import opened Supply

  /** Some step of the run releases withdrawals at an epoch not before `unlock`. */
  ghost predicate ReleasedAtOrAfter(s: State, steps: seq<Step>, unlock: u64)
    decreases |steps|
  {
    steps != [] &&
    ((steps[0].ReleaseDue? && unlock <= s.world.epoch)
     || ReleasedAtOrAfter(NextState(s, steps[0]), steps[1..], unlock))
  }

  /** What may happen to the entry of `u` in one step taken at `epoch`, releasing or not. */
  ghost predicate EntryMoves(p: Pending, p': Pending, u: PendingUnstake, epoch: u64, releasing: bool) {
    var due := releasing && u.unlockEpoch <= epoch;
    && (u.Key() in p && !due ==> u.Key() in p')
    && (due ==> u.Key() !in p')
    && (u.Key() !in p && u.unlockEpoch <= epoch ==> u.Key() !in p')
    && (u.Key() in p && u.Key() in p' && u.requestEpoch < epoch ==> p'[u.Key()] == p[u.Key()])
  }

  /** A request can only touch an entry of the current epoch, which unlocks ten epochs later. */
  lemma RequestMoves(m: Accounts, p: Pending, a: string, amount: u64, epoch: u64, u: PendingUnstake)
    requires epoch < CAST_LIMIT
    ensures EntryMoves(p, RequestUnstake(m, p, a, amount, epoch).pending, u, epoch, false)
  {
    var v := NewUnstake(a, amount, epoch);
    if v.Key() == u.Key() {
      SameKey(v, u);
    }
  }

  /** A release removes exactly the mature entries. */
  lemma ReleaseMoves(m: Accounts, p: Pending, epoch: u64, u: PendingUnstake)
    requires Keyed(m) && PendingKeyed(p) && Total(m) + PendingTotal(p) <= U64_MAX
    ensures EntryMoves(p, ReleaseMatured(m, p, epoch).pending, u, epoch, true)
  {
    ReleaseMeaning(m, p, epoch);
    if u.Key() in p {
      SameKey(p[u.Key()], u);
    }
  }

  lemma StepOnPending(H: string -> Digest, s: State, step: Step, u: PendingUnstake)
    requires Inv(s) && Legal(H, s.world, step)
    ensures EntryMoves(s.world.pending, Next(s.world, step).pending, u, s.world.epoch, step.ReleaseDue?)
  {
    InvSound(s);
    var w := s.world;
    if step.RequestUnbonding? {
      RequestMoves(w.accounts, w.pending, step.address, step.amount, w.epoch, u);
    } else if step.ReleaseDue? {
      ReleaseMoves(w.accounts, w.pending, w.epoch, u);
    } else {
      assert Next(w, step).pending == w.pending;
    }
  }

  /** A key that is gone once it has matured never comes back. */
  lemma {:induction false} NeverReturns(H: string -> Digest, s: State, steps: seq<Step>, u: PendingUnstake)
    requires Inv(s) && LegalRun(H, s, steps)
    requires u.Key() !in s.world.pending && u.unlockEpoch <= s.world.epoch
    ensures u.Key() !in RunFrom(s, steps).world.pending
    decreases |steps|
  {
    if steps != [] {
      StepOnPending(H, s, steps[0], u);
      StepKeepsInv(H, s, steps[0]);
      EpochAdvances(H, s.world, steps[0]);
      NeverReturns(H, NextState(s, steps[0]), steps[1..], u);
    }
  }

  /** A pending withdrawal is still there after any run exactly when the run did not release at or
      after its unlock epoch, whatever else happened. */
  lemma {:induction false} PendingUntilReleased(H: string -> Digest, s: State, steps: seq<Step>, u: PendingUnstake)
    requires Inv(s) && LegalRun(H, s, steps) && u.Key() in s.world.pending
    ensures u.Key() in RunFrom(s, steps).world.pending <==> !ReleasedAtOrAfter(s, steps, u.unlockEpoch)
    decreases |steps|
  {
    if steps != [] {
      var s1 := NextState(s, steps[0]);
      StepOnPending(H, s, steps[0], u);
      StepKeepsInv(H, s, steps[0]);
      EpochAdvances(H, s.world, steps[0]);
      if steps[0].ReleaseDue? && u.unlockEpoch <= s.world.epoch {
        NeverReturns(H, s1, steps[1..], u);
      } else {
        PendingUntilReleased(H, s1, steps[1..], u);
      }
    }
  }

  /** A granted request that writes the entry of `u` once more: same address, same epoch. */
  predicate Rewrites(w: World, step: Step, u: PendingUnstake) {
    && step.RequestUnbonding? && Refusal(w, step).None?
    && NewUnstake(step.address, step.amount, w.epoch) == u.(amount := step.amount)
  }

  /** The amount a run leaves in the entry of `u`: that of the last request that wrote it. */
  ghost function LastAmount(s: State, steps: seq<Step>, u: PendingUnstake): u64
    decreases |steps|
  {
    if steps == [] then u.amount
    else
      var amount := if Rewrites(s.world, steps[0], u) then steps[0].amount else u.amount;
      LastAmount(NextState(s, steps[0]), steps[1..], u.(amount := amount))
  }

  lemma RequestOnEntry(m: Accounts, p: Pending, a: string, amount: u64, epoch: u64, u: PendingUnstake)
    requires u.Key() in p && p[u.Key()] == u
    ensures var o := RequestUnstake(m, p, a, amount, epoch);
      var rewritten := o.result.Success? && NewUnstake(a, amount, epoch) == u.(amount := amount);
      u.Key() in o.pending && o.pending[u.Key()] == u.(amount := if rewritten then amount else u.amount)
  {
    var v := NewUnstake(a, amount, epoch);
    if v.Key() == u.Key() {
      SameKey(v, u);
    }
  }

  lemma ReleaseOnEntry(m: Accounts, p: Pending, epoch: u64, u: PendingUnstake)
    requires u.Key() in p && p[u.Key()] == u && epoch < u.unlockEpoch
    ensures var p' := ReleaseMatured(m, p, epoch).pending; u.Key() in p' && p'[u.Key()] == u
  {
  }

  lemma StepOnEntry(w: World, step: Step, u: PendingUnstake)
    requires u.Key() in w.pending && w.pending[u.Key()] == u
    requires step.ReleaseDue? ==> w.epoch < u.unlockEpoch
    ensures var p := Next(w, step).pending;
      && u.Key() in p && p[u.Key()] == u.(amount := if Rewrites(w, step, u) then step.amount else u.amount)
  {
    if step.RequestUnbonding? {
      RequestOnEntry(w.accounts, w.pending, step.address, step.amount, w.epoch, u);
    } else if step.ReleaseDue? {
      ReleaseOnEntry(w.accounts, w.pending, w.epoch, u);
    } else {
      assert Next(w, step).pending == w.pending;
    }
  }

  /** Until it is released an entry holds exactly the amount of the last request that wrote it. So
      the original amount survives a run if and only if no request of the same address in the same
      epoch left another. */
  lemma {:induction false} PendingUnchanged(H: string -> Digest, s: State, steps: seq<Step>, u: PendingUnstake)
    requires Inv(s) && LegalRun(H, s, steps) && u.Key() in s.world.pending && s.world.pending[u.Key()] == u
    requires !ReleasedAtOrAfter(s, steps, u.unlockEpoch)
    ensures var p := RunFrom(s, steps).world.pending; u.Key() in p && p[u.Key()] == u.(amount := LastAmount(s, steps, u))
    decreases |steps|
  {
    if steps != [] {
      StepOnEntry(s.world, steps[0], u);
      StepKeepsInv(H, s, steps[0]);
      var amount := if Rewrites(s.world, steps[0], u) then steps[0].amount else u.amount;
      PendingUnchanged(H, NextState(s, steps[0]), steps[1..], u.(amount := amount));
    }
  }

  /** Once the request epoch is over nothing writes the entry any more. */
  lemma {:induction false} AmountSettled(H: string -> Digest, s: State, steps: seq<Step>, u: PendingUnstake)
    requires Inv(s) && LegalRun(H, s, steps) && u.requestEpoch < s.world.epoch
    ensures LastAmount(s, steps, u) == u.amount
    decreases |steps|
  {
    if steps != [] {
      StepKeepsInv(H, s, steps[0]);
      EpochAdvances(H, s.world, steps[0]);
      AmountSettled(H, NextState(s, steps[0]), steps[1..], u);
    }
  }

  /** A request the stake covers is granted: it takes the stake at once and leaves an entry that unlocks ten epochs on. */
  lemma RequestGranted(w: World, a: string, amount: u64)
    requires Sound(w) && w.epoch < CAST_LIMIT && a in w.accounts && amount <= StakeOf(w.accounts, a)
    ensures Refusal(w, RequestUnbonding(a, amount)).None?
    ensures var w' := Next(w, RequestUnbonding(a, amount));
      var u := NewUnstake(a, amount, w.epoch);
      && StakeOf(w'.accounts, a) == StakeOf(w.accounts, a) - amount
      && BalanceOf(w'.accounts, a) == BalanceOf(w.accounts, a)
      && u.unlockEpoch == w.epoch + 10
      && u.Key() in w'.pending && w'.pending[u.Key()] == u
  {
    RequestMeaning(w.accounts, w.pending, a, amount, w.epoch);
  }

  ghost function ReleasedBalances(w: World, p: Pending, b: string): u64 {
    BalanceOf(ReleaseMatured(w.accounts, p, w.epoch).accounts, b)
  }

  /** What the release at the end of a wait does: the amount of this entry goes to its owner, nothing
      else is different from a release without the entry, and the entry is gone. */
  ghost predicate PaidOut(w: World, u: PendingUnstake) {
    && (forall b :: ReleasedBalances(w, w.pending, b)
                 == ReleasedBalances(w, w.pending - {u.Key()}, b) + if b == u.address then u.amount else 0)
    && BalanceOf(Next(w, ReleaseDue).accounts, u.address) == ReleasedBalances(w, w.pending, u.address)
    && BalanceOf(Next(w, ReleaseDue).accounts, u.address) >= BalanceOf(w.accounts, u.address) + u.amount
    && u.Key() !in Next(w, ReleaseDue).pending
  }

  lemma SoundFits(w: World)
    requires Sound(w)
    ensures Keyed(w.accounts) && Total(w.accounts) + PendingTotal(w.pending) <= U64_MAX
  {
  }

  lemma DueExact(w: World, u: PendingUnstake, b: string)
    requires Sound(w) && u.Key() in w.pending && w.pending[u.Key()] == u && u.unlockEpoch <= w.epoch
    ensures ReleasedBalances(w, w.pending, b)
         == ReleasedBalances(w, w.pending - {u.Key()}, b) + if b == u.address then u.amount else 0
  {
    SoundFits(w);
    ReleasePaysEntry(w.accounts, w.pending, w.epoch, u.Key(), b);
  }

  lemma DueGain(w: World, u: PendingUnstake)
    requires Sound(w) && u.Key() in w.pending && w.pending[u.Key()] == u && u.unlockEpoch <= w.epoch
    ensures ReleasedBalances(w, w.pending, u.address) >= BalanceOf(w.accounts, u.address) + u.amount
    ensures u.Key() !in ReleaseMatured(w.accounts, w.pending, w.epoch).pending
  {
    SoundFits(w);
    ReleaseGain(w.accounts, w.pending, w.epoch, u.Key());
  }

  lemma NextRelease(w: World)
    ensures Next(w, ReleaseDue).accounts == ReleaseMatured(w.accounts, w.pending, w.epoch).accounts
    ensures Next(w, ReleaseDue).pending == ReleaseMatured(w.accounts, w.pending, w.epoch).pending
  {
  }

  lemma DuePaid(w: World, u: PendingUnstake)
    requires Sound(w) && u.Key() in w.pending && w.pending[u.Key()] == u && u.unlockEpoch <= w.epoch
    ensures PaidOut(w, u)
  {
    DueGain(w, u);
    NextRelease(w);
    forall b
      ensures ReleasedBalances(w, w.pending, b)
           == ReleasedBalances(w, w.pending - {u.Key()}, b) + if b == u.address then u.amount else 0
    {
      DueExact(w, u, b);
    }
  }

  /** A legal run `later` does not bring the entry back. */
  ghost predicate GoneAfter(H: string -> Digest, s: State, later: seq<Step>, u: PendingUnstake) {
    LegalRun(H, s, later) ==> u.Key() !in RunFrom(s, later).world.pending
  }

  /** What becomes of an entry over a run, a release after it, and any run after that. */
  lemma EntryLife(H: string -> Digest, s: State, steps: seq<Step>, later: seq<Step>, u: PendingUnstake)
    requires Inv(s) && LegalRun(H, s, steps)
    requires u.Key() in s.world.pending && s.world.pending[u.Key()] == u
    requires !ReleasedAtOrAfter(s, steps, u.unlockEpoch)
    ensures var w := RunFrom(s, steps).world; var held := u.(amount := LastAmount(s, steps, u));
      && u.Key() in w.pending && w.pending[u.Key()] == held
      && (u.unlockEpoch <= w.epoch ==> PaidOut(w, held) && GoneAfter(H, NextState(RunFrom(s, steps), ReleaseDue), later, u))
  {
    var end := RunFrom(s, steps);
    PendingUnchanged(H, s, steps, u);
    RunKeepsInv(H, s, steps);
    if u.unlockEpoch <= end.world.epoch {
      InvSound(end);
      DuePaid(end.world, u.(amount := LastAmount(s, steps, u)));
      StepKeepsInv(H, end, ReleaseDue);
      if LegalRun(H, NextState(end, ReleaseDue), later) {
        NeverReturns(H, NextState(end, ReleaseDue), later, u);
      }
    }
  }

  /** The whole life of a request: the stake leaves at once; the entry is there until exactly the
      first release at or after the epoch ten later, holding the amount of the last request of its
      owner in its epoch; that release pays this amount once, and the entry never comes back. */
  lemma UnbondingLifecycle(H: string -> Digest, s: State, a: string, amount: u64, steps: seq<Step>, later: seq<Step>)
    requires Inv(s) && a in s.world.accounts && amount <= StakeOf(s.world.accounts, a)
    requires LegalRun(H, NextState(s, RequestUnbonding(a, amount)), steps)
    ensures var s1 := NextState(s, RequestUnbonding(a, amount)); var u := NewUnstake(a, amount, s.world.epoch);
      && StakeOf(s1.world.accounts, a) == StakeOf(s.world.accounts, a) - amount
      && BalanceOf(s1.world.accounts, a) == BalanceOf(s.world.accounts, a)
      && u.unlockEpoch == s.world.epoch + 10
      && u.Key() in s1.world.pending && s1.world.pending[u.Key()] == u
      && (u.Key() in RunFrom(s1, steps).world.pending <==> !ReleasedAtOrAfter(s1, steps, u.unlockEpoch))
    ensures var s1 := NextState(s, RequestUnbonding(a, amount)); var u := NewUnstake(a, amount, s.world.epoch);
      var w := RunFrom(s1, steps).world; var held := u.(amount := LastAmount(s1, steps, u));
      !ReleasedAtOrAfter(s1, steps, u.unlockEpoch) ==>
        && u.Key() in w.pending && w.pending[u.Key()] == held
        && (u.unlockEpoch <= w.epoch ==>
              PaidOut(w, held) && GoneAfter(H, NextState(RunFrom(s1, steps), ReleaseDue), later, u))
  {
    var s1, u := NextState(s, RequestUnbonding(a, amount)), NewUnstake(a, amount, s.world.epoch);
    InvSound(s);
    RequestGranted(s.world, a, amount);
    StepKeepsInv(H, s, RequestUnbonding(a, amount));
    PendingUntilReleased(H, s1, steps, u);
    if !ReleasedAtOrAfter(s1, steps, u.unlockEpoch) {
      EntryLife(H, s1, steps, later, u);
    }
  }

  /* ---------- The account of one owner over a run ---------- */

  /** What a granted request of `a` takes from its stake in one step. */
  ghost function RequestedBy(w: World, step: Step, a: string): nat {
    if step.RequestUnbonding? && step.address == a && Refusal(w, step).None? then step.amount else 0
  }

  /** What a release adds to the balance of `a` in one step. */
  ghost function ReleasedTo(w: World, step: Step, a: string): int {
    if step.ReleaseDue? then BalanceOf(Next(w, step).accounts, a) - BalanceOf(w.accounts, a) else 0
  }

  ghost function ReplacedFor(w: World, step: Step, a: string): nat {
    if step.RequestUnbonding? && step.address == a then Replaced(w, step) else 0
  }

  /** The sum over a run of what is requested by `a` and not replaced, less what is released to it. */
  ghost function NetRequested(s: State, steps: seq<Step>, a: string): int
    decreases |steps|
  {
    if steps == [] then 0
    else
      var w := s.world;
      RequestedBy(w, steps[0], a) - ReplacedFor(w, steps[0], a) - ReleasedTo(w, steps[0], a)
      + NetRequested(NextState(s, steps[0]), steps[1..], a)
  }

  lemma OwnerStep(w: World, step: Step, a: string)
    requires Sound(w)
    ensures PendingFor(Next(w, step).pending, a)
         == PendingFor(w.pending, a) + RequestedBy(w, step, a) - ReplacedFor(w, step, a) - ReleasedTo(w, step, a)
  {
    if step.RequestUnbonding? {
      RequestOwed(w.accounts, w.pending, step.address, step.amount, w.epoch, a);
    } else if step.ReleaseDue? {
      ReleaseOwed(w.accounts, w.pending, w.epoch, a);
    } else {
      assert Next(w, step).pending == w.pending;
    }
  }

  /** Over any run, what an address is still owed is what it requested less what was released to it
      and what a later request replaced: each unit leaves the stake once and reaches the balance of
      its owner once. */
  lemma {:induction false} OwnerAccount(H: string -> Digest, s: State, steps: seq<Step>, a: string)
    requires Inv(s) && LegalRun(H, s, steps)
    ensures PendingFor(RunFrom(s, steps).world.pending, a) == PendingFor(s.world.pending, a) + NetRequested(s, steps, a)
    decreases |steps|
  {
    if steps != [] {
      InvSound(s);
      OwnerStep(s.world, steps[0], a);
      StepKeepsInv(H, s, steps[0]);
      OwnerAccount(H, NextState(s, steps[0]), steps[1..], a);
    }
  }
}
