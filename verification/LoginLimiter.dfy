/**
  The login limiter (cmd/web/ratelimit.go): a map from throttle keys to failure entries, with an
  idle window, a doubling lockout, and, for account keys, a release ceiling anchored at the
  first lock. Instants and durations are whole clock ticks; `None` is Go's zero time.
*/
module LoginLimiter {
  import opened Wrappers

  datatype Config = Config(maxFailures: nat, window: nat, baseLockout: nat, maxLockout: nat,
                           acctPrefix: string, acctLockCeiling: int)

  datatype Entry = Entry(failures: nat, lastFailure: Option<int>, lockedUntil: Option<int>, firstLockedAt: Option<int>)

  const FRESH := Entry(0, None, None, None)

  /** The shipped schedule, in seconds. */
  const SHIPPED := Config(5, 300, 300, 3600, "acct:", 900)

  predicate HasPrefix(s: string, prefix: string) {
    prefix <= s
  }

  // ---------------------------------------------------------------- the lockout schedule

  /** base * 2^n, by doubling. */
  function Doubled(base: nat, n: nat): nat {
    if n == 0 then base else 2 * Doubled(base, n - 1)
  }

  /** The lockout for a failure count: min(base * 2^(failures - maxFailures), maxLockout). */
  function Lockout(c: Config, failures: nat): nat {
    var uncapped := Doubled(c.baseLockout, if failures > c.maxFailures then failures - c.maxFailures else 0);
    if uncapped > c.maxLockout then c.maxLockout else uncapped
  }

  lemma DoubledGrows(base: nat, a: nat, b: nat)
    requires a <= b
    ensures base <= Doubled(base, a) <= Doubled(base, b)
  {
    if a < b {
      DoubledGrows(base, a, b - 1);
    } else if a > 0 {
      DoubledGrows(base, a - 1, a - 1);
    }
  }

  /** The doubling loop stops at the first value that reaches the maximum, so no value it holds
      exceeds twice the larger of base and maximum. */
  method LockoutFor(c: Config, failures: nat) returns (d: nat)
    ensures d == Lockout(c, failures)
  {
    d := c.baseLockout;
    var i := c.maxFailures;
    while i < failures
      invariant c.maxFailures <= i
      invariant i <= failures || i == c.maxFailures
      invariant d == Doubled(c.baseLockout, i - c.maxFailures)
      invariant i == c.maxFailures || d < c.maxLockout
    {
      d := d * 2;
      i := i + 1;
      assert d <= 2 * (if c.baseLockout > c.maxLockout then c.baseLockout else c.maxLockout);
      if d >= c.maxLockout {
        DoubledGrows(c.baseLockout, i - c.maxFailures, failures - c.maxFailures);
        return c.maxLockout;
      }
    }
    if d > c.maxLockout {
      return c.maxLockout;
    }
  }

  // ---------------------------------------------------------------- one entry

  predicate IsAccountKey(c: Config, key: string) {
    c.acctPrefix != "" && HasPrefix(key, c.acctPrefix)
  }

  predicate Unexpired(e: Entry, now: int) {
    e.lockedUntil.Some? && now < e.lockedUntil.value
  }

  predicate Released(c: Config, account: bool, e: Entry, now: int) {
    c.acctLockCeiling > 0 && account && e.firstLockedAt.Some? && now >= e.firstLockedAt.value + c.acctLockCeiling
  }

  predicate LockedAt(c: Config, account: bool, e: Entry, now: int) {
    Unexpired(e, now) && !Released(c, account, e, now)
  }

  /** The key begins with the account prefix, character by character, and there is one. */
  ghost predicate NamesAccount(c: Config, key: string) {
    0 < |c.acctPrefix| <= |key| && forall j :: 0 <= j < |c.acctPrefix| ==> key[j] == c.acctPrefix[j]
  }

  lemma AccountKeyReads(c: Config, key: string)
    ensures IsAccountKey(c, key) <==> NamesAccount(c, key)
  {
  }

  /** A key is held when its lockout runs, unless it names an account, a ceiling is set and that
      long has passed since its first lock. */
  ghost predicate Held(c: Config, entries: Entries, key: string, now: int) {
    && key in entries
    && entries[key].lockedUntil.Some? && now < entries[key].lockedUntil.value
    && (NamesAccount(c, key) && c.acctLockCeiling > 0 && entries[key].firstLockedAt.Some? ==>
          now < entries[key].firstLockedAt.value + c.acctLockCeiling)
  }

  /** A failure after more than the window of quiet, on an entry that is not locked, starts over. */
  predicate Idle(c: Config, e: Entry, now: int) {
    !Unexpired(e, now) && e.lastFailure.Some? && now - e.lastFailure.value > c.window
  }

  function FailEntry(c: Config, e: Entry, now: int): Entry {
    var failures := (if Idle(c, e, now) then 0 else e.failures) + 1;
    var anchor := if Idle(c, e, now) then None else e.firstLockedAt;
    if failures >= c.maxFailures then
      Entry(failures, Some(now), Some(now + Lockout(c, failures)), if anchor.None? then Some(now) else anchor)
    else
      Entry(failures, Some(now), e.lockedUntil, anchor)
  }

  // ---------------------------------------------------------------- the keyed map

  type Entries = map<string, Entry>

  function Get(m: Entries, key: string): Entry {
    if key in m then m[key] else FRESH
  }

  function FailAll(c: Config, m: Entries, keys: seq<string>, now: int): Entries {
    if keys == [] then m
    else
      var before := FailAll(c, m, keys[..|keys| - 1], now);
      var key := keys[|keys| - 1];
      before[key := FailEntry(c, Get(before, key), now)]
  }

  function FailTimes(c: Config, e: Entry, n: nat, now: int): Entry {
    if n == 0 then e else FailEntry(c, FailTimes(c, e, n - 1, now), now)
  }

  ghost predicate ReachesAt(c: Config, m: Entries, keys: seq<string>, now: int, i: nat)
    requires i < |keys|
  {
    FailEntry(c, Get(FailAll(c, m, keys[..i], now), keys[i]), now).failures >= c.maxFailures
  }

  /** Some key reached the threshold as it was failed. */
  ghost predicate ReachesThreshold(c: Config, m: Entries, keys: seq<string>, now: int) {
    exists i :: 0 <= i < |keys| && ReachesAt(c, m, keys, now, i)
  }

  lemma FailAllSnoc(c: Config, m: Entries, keys: seq<string>, now: int, i: nat)
    requires i < |keys|
    ensures var before := FailAll(c, m, keys[..i], now);
            FailAll(c, m, keys[..i + 1], now) == before[keys[i] := FailEntry(c, Get(before, keys[i]), now)]
  {
    assert keys[..i + 1][..i] == keys[..i];
  }

  /** The limiter object. Its mutex is held for the whole of each method, so each is one step. */
  class Limiter {
    const config: Config
    var entries: Entries

    constructor (config: Config)
      ensures this.config == config && entries == map[]
    {
      this.config := config;
      entries := map[];
    }

    method Locked(keys: seq<string>, now: int) returns (locked: bool)
      ensures locked <==> exists i :: 0 <= i < |keys| && LockedAt(config, IsAccountKey(config, keys[i]), Get(entries, keys[i]), now)
      ensures locked <==> exists i :: 0 <= i < |keys| && Held(config, entries, keys[i], now)
    {
      forall i | 0 <= i < |keys|
        ensures IsAccountKey(config, keys[i]) <==> NamesAccount(config, keys[i])
      {
        AccountKeyReads(config, keys[i]);
      }
      for i := 0 to |keys|
        invariant forall k :: 0 <= k < i ==> !Held(config, entries, keys[k], now)
        invariant forall k :: 0 <= k < i ==> !LockedAt(config, IsAccountKey(config, keys[k]), Get(entries, keys[k]), now)
      {
        if keys[i] !in entries {
          continue;
        }
        var e := entries[keys[i]];
        if !(e.lockedUntil.Some? && now < e.lockedUntil.value) {
          continue;
        }
        if config.acctLockCeiling > 0 && config.acctPrefix != "" && HasPrefix(keys[i], config.acctPrefix)
           && e.firstLockedAt.Some? && !(now < e.firstLockedAt.value + config.acctLockCeiling) {
          continue;
        }
        assert Held(config, entries, keys[i], now);
        return true;
      }
      return false;
    }

    /** The body of the loop in `Fail`: one key's entry, failed once. */
    method FailOne(entry: Entry, now: int) returns (e: Entry, reached: bool)
      ensures e == FailEntry(config, entry, now)
      ensures reached <==> e.failures >= config.maxFailures
    {
      e, reached := entry, false;
      if !(e.lockedUntil.Some? && now < e.lockedUntil.value) && e.lastFailure.Some? && now - e.lastFailure.value > config.window {
        e := e.(failures := 0, firstLockedAt := None);
      }
      e := e.(failures := e.failures + 1, lastFailure := Some(now));
      if e.failures >= config.maxFailures {
        if e.firstLockedAt.None? {
          e := e.(firstLockedAt := Some(now));
        }
        var lockout := LockoutFor(config, e.failures);
        e := e.(lockedUntil := Some(now + lockout));
        reached := true;
      }
    }

    method Fail(keys: seq<string>, now: int) returns (nowLocked: bool)
      modifies this`entries
      ensures entries == FailAll(config, old(entries), keys, now)
      ensures nowLocked <==> ReachesThreshold(config, old(entries), keys, now)
    {
      nowLocked := false;
      ghost var start := entries;
      for i := 0 to |keys|
        invariant entries == FailAll(config, start, keys[..i], now)
        invariant nowLocked <==> exists k :: 0 <= k < i && ReachesAt(config, start, keys, now, k)
      {
        FailAllSnoc(config, start, keys, now, i);
        var e, reached := FailOne(if keys[i] in entries then entries[keys[i]] else FRESH, now);
        assert reached <==> ReachesAt(config, start, keys, now, i);
        if reached {
          nowLocked := true;
        }
        entries := entries[keys[i] := e];
      }
      assert keys[..|keys|] == keys;
    }

    method Reset(keys: seq<string>)
      modifies this`entries
      ensures entries == old(entries) - (set k | k in keys)
    {
      ghost var start := entries;
      for i := 0 to |keys|
        invariant entries == start - (set k | k in keys[..i])
      {
        entries := entries - {keys[i]};
        assert keys[..i + 1] == keys[..i] + [keys[i]];
      }
      assert keys[..|keys|] == keys;
    }
  }

  /** Failing several keys at once fails each of them as often as it is named and no other key. */
  lemma {:induction false} FailAllIsPerKey(c: Config, m: Entries, keys: seq<string>, now: int, key: string)
    ensures Get(FailAll(c, m, keys, now), key) == FailTimes(c, Get(m, key), multiset(keys)[key], now)
    ensures key in FailAll(c, m, keys, now) <==> key in m || key in keys
  {
    if keys != [] {
      var rest, last := keys[..|keys| - 1], keys[|keys| - 1];
      assert keys == rest + [last];
      FailAllIsPerKey(c, m, rest, now, key);
    }
  }

  // ---------------------------------------------------------------- runs of failures of one key

  /** The entry just before the failure at position `i`. */
  function EntryBefore(c: Config, e: Entry, ats: seq<int>, i: nat): Entry
    requires i <= |ats|
  {
    if i == 0 then e else FailEntry(c, EntryBefore(c, e, ats, i - 1), ats[i - 1])
  }

  ghost predicate Monotone(ats: seq<int>) {
    forall i, j :: 0 <= i <= j < |ats| ==> ats[i] <= ats[j]
  }

  /** Each failure was let through: `locked` was false when it was made. */
  ghost predicate LetThrough(c: Config, account: bool, e: Entry, ats: seq<int>) {
    forall i :: 0 <= i < |ats| ==> !HeldAt(c, account, e, ats, i)
  }

  ghost predicate HeldAt(c: Config, account: bool, e: Entry, ats: seq<int>, i: nat)
    requires i < |ats|
  {
    LockedAt(c, account, EntryBefore(c, e, ats, i), ats[i])
  }

  ghost predicate Unbroken(c: Config, e: Entry, ats: seq<int>) {
    forall i :: 1 <= i < |ats| ==> !BreaksAt(c, e, ats, i)
  }

  ghost predicate BreaksAt(c: Config, e: Entry, ats: seq<int>, i: nat)
    requires i < |ats|
  {
    Idle(c, EntryBefore(c, e, ats, i), ats[i])
  }

  function MinThree(a: int, b: int, c: int): int {
    var m := if a < b then a else b;
    if m < c then m else c
  }

  /** The least time the limiter holds one key to, per `maxFailures` guesses. */
  function Hold(c: Config): int {
    MinThree(c.window, c.baseLockout, c.maxLockout)
  }

  lemma LockoutAtLeastHold(c: Config, failures: nat)
    ensures Lockout(c, failures) >= Hold(c)
  {
    DoubledGrows(c.baseLockout, 0, if failures > c.maxFailures then failures - c.maxFailures else 0);
  }

  lemma {:induction false} UnbrokenCounts(c: Config, e: Entry, ats: seq<int>, i: nat)
    requires 1 <= i <= |ats|
    requires Unbroken(c, e, ats)
    ensures EntryBefore(c, e, ats, i).failures >= i
    ensures EntryBefore(c, e, ats, i).lastFailure == Some(ats[i - 1])
  {
    if i > 1 {
      UnbrokenCounts(c, e, ats, i - 1);
      assert !BreaksAt(c, e, ats, i - 1);
    }
  }

  lemma GapBreaksStreak(c: Config, e: Entry, ats: seq<int>, i: nat)
    requires 1 <= i < |ats| && Monotone(ats)
    requires BreaksAt(c, e, ats, i)
    ensures ats[|ats| - 1] - ats[0] > c.window
  {
    assert EntryBefore(c, e, ats, i).lastFailure == Some(ats[i - 1]);
    assert ats[0] <= ats[i - 1] && ats[i] <= ats[|ats| - 1];
  }

  /** Over any starting entry: of maxFailures + 1 consecutive failures within less than `Hold`, with no
      reset between, the last is let through exactly when the account ceiling had released the key. */
  lemma LastOfShortRunIsHeldExactly(c: Config, account: bool, e: Entry, ats: seq<int>)
    requires c.maxFailures > 0
    requires |ats| == c.maxFailures + 1 && Monotone(ats)
    requires ats[c.maxFailures] - ats[0] < Hold(c)
    ensures !HeldAt(c, account, e, ats, c.maxFailures)
       <==> Released(c, account, EntryBefore(c, e, ats, c.maxFailures), ats[c.maxFailures])
  {
    forall i | 1 <= i < |ats|
      ensures !BreaksAt(c, e, ats, i)
    {
      if BreaksAt(c, e, ats, i) {
        GapBreaksStreak(c, e, ats, i);
      }
    }
    var n := c.maxFailures;
    UnbrokenCounts(c, e, ats, n);
    var held := EntryBefore(c, e, ats, n);
    LockoutAtLeastHold(c, held.failures);
    assert held.lockedUntil == Some(ats[n - 1] + Lockout(c, held.failures));
  }

  /** So maxFailures + 1 failures that were all let through span at least `Hold`, unless the ceiling had
      released the key when the last of them was made. */
  lemma GuessesTakeTime(c: Config, account: bool, e: Entry, ats: seq<int>)
    requires c.maxFailures > 0
    requires |ats| == c.maxFailures + 1
    requires Monotone(ats) && LetThrough(c, account, e, ats)
    ensures ats[c.maxFailures] - ats[0] >= Hold(c)
            || Released(c, account, EntryBefore(c, e, ats, c.maxFailures), ats[c.maxFailures])
  {
    assert !HeldAt(c, account, e, ats, c.maxFailures);
    if ats[c.maxFailures] - ats[0] < Hold(c) {
      LastOfShortRunIsHeldExactly(c, account, e, ats);
    }
  }

  lemma {:induction false} EntryBeforeSuffix(c: Config, e: Entry, ats: seq<int>, from: nat, i: nat)
    requires from + i <= |ats|
    ensures EntryBefore(c, EntryBefore(c, e, ats, from), ats[from..], i) == EntryBefore(c, e, ats, from + i)
  {
    if i > 0 {
      EntryBeforeSuffix(c, e, ats, from, i - 1);
    }
  }

  lemma {:induction false} EntryBeforePrefix(c: Config, e: Entry, ats: seq<int>, n: nat, i: nat)
    requires i <= n <= |ats|
    ensures EntryBefore(c, e, ats[..n], i) == EntryBefore(c, e, ats, i)
  {
    if i > 0 {
      EntryBeforePrefix(c, e, ats, n, i - 1);
    }
  }

  /** LetThrough splits at any failure of the run. */
  lemma LetThroughSplits(c: Config, account: bool, e: Entry, ats: seq<int>, n: nat)
    requires n < |ats| && LetThrough(c, account, e, ats)
    ensures LetThrough(c, account, e, ats[..n + 1])
    ensures LetThrough(c, account, EntryBefore(c, e, ats, n), ats[n..])
  {
    var head := ats[..n + 1];
    forall i | 0 <= i < |head|
      ensures !HeldAt(c, account, e, head, i)
    {
      assert !HeldAt(c, account, e, ats, i);
      EntryBeforePrefix(c, e, ats, n + 1, i);
    }
    var mid, tail := EntryBefore(c, e, ats, n), ats[n..];
    forall i | 0 <= i < |tail|
      ensures !HeldAt(c, account, mid, tail, i)
    {
      assert !HeldAt(c, account, e, ats, n + i);
      EntryBeforeSuffix(c, e, ats, n, i);
    }
  }

  /** The guessing rate over a whole run of a key that has no ceiling: `rounds * maxFailures + 1`
      guesses that were let through take at least `rounds * Hold`. */
  lemma {:induction false} GuessingRateIsBounded(c: Config, e: Entry, ats: seq<int>, rounds: nat)
    requires c.maxFailures > 0
    requires |ats| == rounds * c.maxFailures + 1
    requires Monotone(ats) && LetThrough(c, false, e, ats)
    ensures ats[|ats| - 1] - ats[0] >= rounds * Hold(c)
    decreases rounds
  {
    if rounds > 0 {
      var n := c.maxFailures;
      OneLess(rounds, n);
      OneLess(rounds, Hold(c));
      LetThroughSplits(c, false, e, ats, n);
      GuessesTakeTime(c, false, e, ats[..n + 1]);
      GuessingRateIsBounded(c, EntryBefore(c, e, ats, n), ats[n..], rounds - 1);
    }
  }

  lemma OneLess(rounds: nat, x: int)
    requires rounds > 0
    ensures rounds * x == (rounds - 1) * x + x
    ensures x >= 0 ==> (rounds - 1) * x >= 0
  {
  }

  lemma {:induction false} AnchorStays(c: Config, e: Entry, ats: seq<int>, i: nat)
    requires i <= |ats|
    requires e.firstLockedAt.Some?
    requires |ats| > 0 ==> !Idle(c, e, ats[0])
    requires Unbroken(c, e, ats)
    ensures EntryBefore(c, e, ats, i).firstLockedAt == e.firstLockedAt
  {
    if i > 0 {
      AnchorStays(c, e, ats, i - 1);
      assert i > 1 ==> !BreaksAt(c, e, ats, i - 1);
    }
  }

  /** The other side of the ceiling: once an account key is released, it is not held again for the
      rest of its streak, however fast the guesses come. */
  lemma ReleasedIsNotHeldAgain(c: Config, e: Entry, ats: seq<int>)
    requires |ats| > 0 && Monotone(ats)
    requires Released(c, true, e, ats[0])
    requires !Idle(c, e, ats[0]) && Unbroken(c, e, ats)
    ensures LetThrough(c, true, e, ats)
  {
    forall i | 0 <= i < |ats|
      ensures !HeldAt(c, true, e, ats, i)
    {
      AnchorStays(c, e, ats, i);
    }
  }

  // ---------------------------------------------------------------- account keys, one guess at a time

  /** What guessing one at a time can make of a fresh entry on the shipped schedule: below the threshold
      and unlocked, locked once, or locked twice. */
  ghost predicate OneAtATime(e: Entry) {
    || (e.failures < 5 && e.firstLockedAt.None? && (e.lockedUntil.None? || (e.lastFailure.Some? && e.lockedUntil.value <= e.lastFailure.value)))
    || (e.failures == 5 && e.lastFailure.Some? && e.firstLockedAt == e.lastFailure && e.lockedUntil == Some(e.lastFailure.value + 300))
    || (e.failures == 6 && e.lastFailure.Some? && e.firstLockedAt == Some(e.lastFailure.value - 300)
        && e.lockedUntil == Some(e.lastFailure.value + 600))
  }

  /** Such an entry is never released before its lock has run out. */
  lemma NeverReleasedWhileLocked(e: Entry, now: int)
    requires OneAtATime(e) && (e.lastFailure.Some? ==> e.lastFailure.value <= now)
    ensures !(Unexpired(e, now) && Released(SHIPPED, true, e, now))
  {
  }

  lemma OneMoreAtATime(e: Entry, now: int)
    requires OneAtATime(e) && (e.lastFailure.Some? ==> e.lastFailure.value <= now)
    requires !Unexpired(e, now)
    ensures OneAtATime(FailEntry(SHIPPED, e, now))
  {
    ShippedSchedule(5);
    ShippedSchedule(6);
  }

  lemma {:induction false} LetThroughOneAtATime(ats: seq<int>, i: nat)
    requires i <= |ats| && Monotone(ats) && LetThrough(SHIPPED, true, FRESH, ats)
    ensures var e := EntryBefore(SHIPPED, FRESH, ats, i);
            OneAtATime(e) && (i > 0 ==> e.lastFailure == Some(ats[i - 1])) && (i == 0 ==> e.lastFailure.None?)
    ensures i < |ats| ==> !HeldAt(SHIPPED, false, FRESH, ats, i)
  {
    if i > 0 {
      LetThroughOneAtATime(ats, i - 1);
      OneMoreAtATime(EntryBefore(SHIPPED, FRESH, ats, i - 1), ats[i - 1]);
    }
    if i < |ats| {
      assert !HeldAt(SHIPPED, true, FRESH, ats, i);
      NeverReleasedWhileLocked(EntryBefore(SHIPPED, FRESH, ats, i), ats[i]);
    }
  }

  /** From a fresh entry and on the shipped schedule, failures let through one at a time are held to the
      same rate on an account key as on any other, anywhere in the run. */
  lemma AccountGuessingRateIsBounded(ats: seq<int>, from: nat, rounds: nat)
    requires Monotone(ats) && LetThrough(SHIPPED, true, FRESH, ats)
    requires from + rounds * SHIPPED.maxFailures < |ats|
    ensures ats[from + rounds * SHIPPED.maxFailures] - ats[from] >= rounds * Hold(SHIPPED)
  {
    forall i | 0 <= i < |ats|
      ensures !HeldAt(SHIPPED, false, FRESH, ats, i)
    {
      LetThroughOneAtATime(ats, i);
    }
    var upTo := ats[..from + rounds * SHIPPED.maxFailures + 1];
    LetThroughSplits(SHIPPED, false, FRESH, ats, |upTo| - 1);
    LetThroughSplits(SHIPPED, false, FRESH, upTo, from);
    GuessingRateIsBounded(SHIPPED, EntryBefore(SHIPPED, FRESH, upTo, from), upTo[from..], rounds);
  }

  // ---------------------------------------------------------------- one unbroken streak

  /** Failures with no reset or idle break among them, the first of them starting from nothing. */
  ghost predicate Streak(c: Config, e: Entry, ats: seq<int>) {
    && c.maxFailures > 0
    && |ats| > 0
    && Monotone(ats)
    && (e == FRESH || Idle(c, e, ats[0]))
    && Unbroken(c, e, ats)
  }

  /** The entry is a function of the streak: its count is the number of failures, its anchor the
      instant of the maxFailures-th failure and never a later one, its lock set by the last. */
  lemma {:induction false} StreakClosedForm(c: Config, e: Entry, ats: seq<int>, i: nat)
    requires Streak(c, e, ats)
    requires 1 <= i <= |ats|
    ensures EntryBefore(c, e, ats, i) ==
            if i < c.maxFailures then Entry(i, Some(ats[i - 1]), e.lockedUntil, None)
            else Entry(i, Some(ats[i - 1]), Some(ats[i - 1] + Lockout(c, i)), Some(ats[c.maxFailures - 1]))
  {
    if i > 1 {
      StreakClosedForm(c, e, ats, i - 1);
      assert !BreaksAt(c, e, ats, i - 1);
    } else {
      assert EntryBefore(c, e, ats, 0) == e;
    }
  }

  /** When a key is reported locked during a streak: from the threshold on, until its escalated
      lockout after the latest failure ends, and for an account key never from `acctLockCeiling`
      after the first lock on. */
  lemma LockedExactlyWhen(c: Config, account: bool, e: Entry, ats: seq<int>, now: int)
    requires Streak(c, e, ats)
    requires ats[|ats| - 1] <= now
    ensures LockedAt(c, account, EntryBefore(c, e, ats, |ats|), now) <==>
            && |ats| >= c.maxFailures
            && now < ats[|ats| - 1] + Lockout(c, |ats|)
            && (account && c.acctLockCeiling > 0 ==> now < ats[c.maxFailures - 1] + c.acctLockCeiling)
  {
    StreakClosedForm(c, e, ats, |ats|);
  }

  /** Every instant an account key is reported locked in one streak lies in one window of length
      `acctLockCeiling` that opens at the first lock and does not move. */
  lemma AccountLockWindow(c: Config, e: Entry, ats: seq<int>, n: nat, now: int)
    requires Streak(c, e, ats) && c.acctLockCeiling > 0
    requires 1 <= n <= |ats| && ats[n - 1] <= now
    requires LockedAt(c, true, EntryBefore(c, e, ats, n), now)
    ensures n >= c.maxFailures
    ensures EntryBefore(c, e, ats, n).firstLockedAt == Some(ats[c.maxFailures - 1])
    ensures ats[c.maxFailures - 1] <= now < ats[c.maxFailures - 1] + c.acctLockCeiling
  {
    StreakClosedForm(c, e, ats, n);
  }

  /** The shipped schedule of the decision record: 5, 10, 20, 40 minutes, then one hour. */
  lemma ShippedSchedule(failures: nat)
    requires failures >= 5
    ensures Lockout(SHIPPED, failures) ==
            if failures == 5 then 300 else if failures == 6 then 600 else if failures == 7 then 1200
            else if failures == 8 then 2400 else 3600
  {
    assert Doubled(300, 1) == 600 && Doubled(300, 2) == 1200 && Doubled(300, 3) == 2400;
    assert Doubled(300, 4) == 4800;
    if failures >= 9 {
      DoubledGrows(300, 4, failures - 5);
    }
  }

  // ---------------------------------------------------------------- requests in flight

  /** `locked` and `fail` are two calls with password work between them. A request is admitted when its key
      is not locked, and later fails, or leaves without a failure. */
  datatype Call = AdmitCall(now: int) | FailCall(now: int) | LeaveCall(now: int)

  /** One key: its entry, and how many admitted requests have not come back. */
  datatype Gate = Gate(entry: Entry, inFlight: nat)

  predicate MayCall(c: Config, account: bool, g: Gate, call: Call) {
    if call.AdmitCall? then !LockedAt(c, account, g.entry, call.now) else g.inFlight > 0
  }

  function AfterCall(c: Config, g: Gate, call: Call): Gate {
    match call
    case AdmitCall(_) => g.(inFlight := g.inFlight + 1)
    case FailCall(now) => Gate(FailEntry(c, g.entry, now), if g.inFlight > 0 then g.inFlight - 1 else 0)
    case LeaveCall(_) => g.(inFlight := if g.inFlight > 0 then g.inFlight - 1 else 0)
  }

  ghost predicate CallStep(c: Config, account: bool, g: Gate, call: Call, g': Gate) {
    MayCall(c, account, g, call) && g' == AfterCall(c, g, call)
  }

  /** Calls on one key in the order the limiter serves them, with no reset among them. */
  ghost predicate IsCallRun(c: Config, account: bool, gates: seq<Gate>, calls: seq<Call>) {
    && |gates| == |calls| + 1
    && (forall i :: 0 <= i < |calls| ==> CallStep(c, account, gates[i], calls[i], gates[i + 1]))
    && (forall i, j :: 0 <= i <= j < |calls| ==> calls[i].now <= calls[j].now)
  }

  ghost predicate AtMostInFlight(gates: seq<Gate>, k: nat) {
    forall i :: 0 <= i < |gates| ==> gates[i].inFlight <= k
  }

  function FailCount(calls: seq<Call>): nat {
    if calls == [] then 0 else FailCount(calls[..|calls| - 1]) + if calls[|calls| - 1].FailCall? then 1 else 0
  }

  /** The ceiling let a request in at position `i`. */
  ghost predicate AdmittedReleased(c: Config, account: bool, gates: seq<Gate>, calls: seq<Call>, i: nat)
    requires i < |gates| && i < |calls|
  {
    calls[i].AdmitCall? && Unexpired(gates[i].entry, calls[i].now) && Released(c, account, gates[i].entry, calls[i].now)
  }

  /** How the run stands after `n` failures that began at `first` and are to end by `last`: all of them
      counted, and once the threshold is met the key locked past `last` and nobody let in any more. */
  ghost predicate Closing(c: Config, g: Gate, n: nat, k: nat, first: int, last: int, now: int) {
    && g.entry.lastFailure.Some? && first <= g.entry.lastFailure.value <= now
    && g.entry.failures >= n >= 1
    && (n >= c.maxFailures ==> Unexpired(g.entry, last) && g.inFlight + n <= c.maxFailures + k - 1)
  }

  lemma ClosingStep(c: Config, account: bool, g: Gate, call: Call, n: nat, k: nat, first: int, last: int, now: int)
    requires c.maxFailures > 0 && last - first < Hold(c) && now <= call.now <= last
    requires Closing(c, g, n, k, first, last, now) && g.inFlight <= k
    requires MayCall(c, account, g, call)
    requires call.AdmitCall? ==> !(Unexpired(g.entry, call.now) && Released(c, account, g.entry, call.now))
    ensures Closing(c, AfterCall(c, g, call), n + if call.FailCall? then 1 else 0, k, first, last, call.now)
  {
    if call.FailCall? {
      assert !Idle(c, g.entry, call.now);
      LockoutAtLeastHold(c, g.entry.failures + 1);
    }
  }

  lemma ClosingStart(c: Config, account: bool, g: Gate, call: Call, k: nat, last: int)
    requires c.maxFailures > 0 && last - call.now < Hold(c) && call.FailCall?
    requires MayCall(c, account, g, call) && g.inFlight <= k
    ensures Closing(c, AfterCall(c, g, call), 1, k, call.now, last, call.now)
  {
    LockoutAtLeastHold(c, AfterCall(c, g, call).entry.failures);
  }

  lemma {:induction false} ClosingHolds(c: Config, account: bool, gates: seq<Gate>, calls: seq<Call>, k: nat, i: nat)
    requires c.maxFailures > 0 && IsCallRun(c, account, gates, calls) && AtMostInFlight(gates, k)
    requires 1 <= i <= |calls| && calls[0].FailCall?
    requires calls[|calls| - 1].now - calls[0].now < Hold(c)
    requires forall j :: 0 <= j < |calls| ==> !AdmittedReleased(c, account, gates, calls, j)
    ensures Closing(c, gates[i], FailCount(calls[..i]), k, calls[0].now, calls[|calls| - 1].now, calls[i - 1].now)
  {
    var last := calls[|calls| - 1].now;
    assert calls[..i][..i - 1] == calls[..i - 1];
    assert CallStep(c, account, gates[i - 1], calls[i - 1], gates[i]);
    if i == 1 {
      ClosingStart(c, account, gates[0], calls[0], k, last);
      assert FailCount(calls[..0]) == 0;
    } else {
      ClosingHolds(c, account, gates, calls, k, i - 1);
      assert !AdmittedReleased(c, account, gates, calls, i - 1);
      ClosingStep(c, account, gates[i - 1], calls[i - 1], FailCount(calls[..i - 1]), k, calls[0].now, last, calls[i - 2].now);
    }
  }

  /** With at most `k` requests of one key in flight, maxFailures + k failures span at least `Hold`, from
      any starting state, unless the ceiling let a request in among them. */
  lemma InFlightGuessesTakeTime(c: Config, account: bool, gates: seq<Gate>, calls: seq<Call>, k: nat)
    requires c.maxFailures > 0 && IsCallRun(c, account, gates, calls) && AtMostInFlight(gates, k)
    requires |calls| > 0 && calls[0].FailCall? && FailCount(calls) >= c.maxFailures + k
    ensures calls[|calls| - 1].now - calls[0].now >= Hold(c)
            || exists j: nat :: j < |calls| && AdmittedReleased(c, account, gates, calls, j)
  {
    assert calls[..|calls|] == calls;
    if calls[|calls| - 1].now - calls[0].now < Hold(c)
       && forall j: nat :: j < |calls| ==> !AdmittedReleased(c, account, gates, calls, j) {
      ClosingHolds(c, account, gates, calls, k, |calls|);
    }
  }

  lemma OneCallMore(c: Config, account: bool, gates: seq<Gate>, calls: seq<Call>, call: Call) returns (longer: seq<Gate>, more: seq<Call>)
    requires IsCallRun(c, account, gates, calls)
    requires MayCall(c, account, gates[|gates| - 1], call)
    requires |calls| > 0 ==> calls[|calls| - 1].now <= call.now
    ensures longer == gates + [AfterCall(c, gates[|gates| - 1], call)] && more == calls + [call]
    ensures IsCallRun(c, account, longer, more)
    ensures FailCount(more) == FailCount(calls) + if call.FailCall? then 1 else 0
  {
    longer, more := gates + [AfterCall(c, gates[|gates| - 1], call)], calls + [call];
    assert more[..|calls|] == calls;
    forall i | 0 <= i < |more|
      ensures CallStep(c, account, longer[i], more[i], longer[i + 1])
    {
      if i < |calls| {
        assert CallStep(c, account, gates[i], calls[i], gates[i + 1]);
      }
    }
  }

  /** `g` as a fresh key's gate after `n` failures at instant 0, and `k` requests still in flight. */
  ghost predicate FailedAtZero(c: Config, g: Gate, n: nat, k: nat) {
    && g.inFlight == k && g.entry.failures == n
    && (n == 0 ==> g.entry == FRESH)
    && (n > 0 ==> g.entry.lastFailure == Some(0))
    && (n < c.maxFailures ==> g.entry.lockedUntil.None? && g.entry.firstLockedAt.None?)
    && (n >= c.maxFailures ==> g.entry.lockedUntil == Some(Lockout(c, n)) && g.entry.firstLockedAt == Some(0))
  }

  lemma FailAtZero(c: Config, g: Gate, n: nat, k: nat)
    requires c.maxFailures > 0 && k > 0 && FailedAtZero(c, g, n, k)
    ensures FailedAtZero(c, AfterCall(c, g, FailCall(0)), n + 1, k - 1)
  {
  }

  ghost predicate AllAt(calls: seq<Call>, now: int) {
    forall i :: 0 <= i < |calls| ==> calls[i].now == now
  }

  /** A run of one fresh key at instant 0: `n` failures so far, `flying` requests still out, never more than `k`. */
  ghost predicate ZeroRun(c: Config, account: bool, gates: seq<Gate>, calls: seq<Call>, k: nat, n: nat, flying: nat) {
    && IsCallRun(c, account, gates, calls) && gates[0] == Gate(FRESH, 0)
    && AtMostInFlight(gates, k) && AllAt(calls, 0)
    && FailCount(calls) == n && FailedAtZero(c, gates[|gates| - 1], n, flying)
  }

  lemma ZeroAdmit(c: Config, account: bool, gates: seq<Gate>, calls: seq<Call>, k: nat, n: nat, flying: nat)
    returns (longer: seq<Gate>, more: seq<Call>)
    requires ZeroRun(c, account, gates, calls, k, n, flying) && flying < k && n < c.maxFailures
    ensures ZeroRun(c, account, longer, more, k, n, flying + 1)
  {
    longer, more := OneCallMore(c, account, gates, calls, AdmitCall(0));
  }

  lemma ZeroFail(c: Config, account: bool, gates: seq<Gate>, calls: seq<Call>, k: nat, n: nat, flying: nat)
    returns (longer: seq<Gate>, more: seq<Call>)
    requires c.maxFailures > 0 && ZeroRun(c, account, gates, calls, k, n, flying) && flying > 0
    ensures ZeroRun(c, account, longer, more, k, n + 1, flying - 1)
  {
    FailAtZero(c, gates[|gates| - 1], n, flying);
    longer, more := OneCallMore(c, account, gates, calls, FailCall(0));
  }

  /** The bound on failures in flight is the least one: from a fresh key, `k` requests in flight make
      maxFailures + k - 1 failures in one instant. */
  lemma InFlightBoundIsTight(c: Config, account: bool, k: nat) returns (gates: seq<Gate>, calls: seq<Call>)
    requires c.maxFailures > 0 && k > 0
    ensures ZeroRun(c, account, gates, calls, k, c.maxFailures + k - 1, 0)
  {
    gates, calls := [Gate(FRESH, 0)], [];
    var n: nat, flying: nat := 0, 0;
    while n < c.maxFailures - 1
      invariant n <= c.maxFailures - 1 && ZeroRun(c, account, gates, calls, k, n, 0)
    {
      gates, calls := ZeroAdmit(c, account, gates, calls, k, n, 0);
      gates, calls := ZeroFail(c, account, gates, calls, k, n, 1);
      n := n + 1;
    }
    while flying < k
      invariant flying <= k && ZeroRun(c, account, gates, calls, k, n, flying)
    {
      gates, calls := ZeroAdmit(c, account, gates, calls, k, n, flying);
      flying := flying + 1;
    }
    while flying > 0
      invariant n + flying == c.maxFailures + k - 1 && ZeroRun(c, account, gates, calls, k, n, flying)
    {
      gates, calls := ZeroFail(c, account, gates, calls, k, n, flying);
      n, flying := n + 1, flying - 1;
    }
  }

  /** An account key that is released while it is still locked. */
  ghost predicate ReleasedLocked(g: Gate, now: int) {
    && g.inFlight == 0 && g.entry.failures >= 5 && Unexpired(g.entry, now) && Released(SHIPPED, true, g.entry, now)
  }

  lemma ReleasedLockedStays(g: Gate, now: int)
    requires ReleasedLocked(g, now)
    ensures MayCall(SHIPPED, true, g, AdmitCall(now))
    ensures var admitted := AfterCall(SHIPPED, g, AdmitCall(now));
            && MayCall(SHIPPED, true, admitted, FailCall(now)) && admitted.inFlight == 1
            && ReleasedLocked(AfterCall(SHIPPED, admitted, FailCall(now)), now)
  {
    LockoutAtLeastHold(SHIPPED, g.entry.failures + 1);
  }

  /** From position `from` on: one request at a time, all at instant 900, `j` failures, the key released and locked. */
  ghost predicate FreeRun(gates: seq<Gate>, calls: seq<Call>, from: nat, j: nat) {
    && IsCallRun(SHIPPED, true, gates, calls) && gates[0] == Gate(FRESH, 0) && AtMostInFlight(gates, 3)
    && from <= |calls| && AllAt(calls[..from], 0) && AllAt(calls[from..], 900)
    && (forall i :: from <= i < |gates| ==> gates[i].inFlight <= 1)
    && FailCount(calls) == 7 + j
    && ReleasedLocked(gates[|gates| - 1], 900)
  }

  lemma FreeGuess(gates: seq<Gate>, calls: seq<Call>, from: nat, j: nat) returns (longer: seq<Gate>, more: seq<Call>)
    requires FreeRun(gates, calls, from, j)
    ensures FreeRun(longer, more, from, j + 1)
  {
    ReleasedLockedStays(gates[|gates| - 1], 900);
    if calls != [] {
      LastAt(calls, from);
    }
    longer, more := OneCallMore(SHIPPED, true, gates, calls, AdmitCall(900));
    longer, more := OneCallMore(SHIPPED, true, longer, more, FailCall(900));
    assert more[..from] == calls[..from];
    assert more[from..] == calls[from..] + [AdmitCall(900), FailCall(900)];
  }

  /** On the shipped schedule the ceiling does let guesses through. From a fresh account key, three requests
      in flight make seven failures at instant 0; at instant 900, when the ceiling ends, the key is still
      locked, and any number of guesses made one at a time in that instant are all let in. */
  lemma ReleasedAccountGuessesFreely(n: nat) returns (gates: seq<Gate>, calls: seq<Call>, from: nat)
    ensures FreeRun(gates, calls, from, n)
  {
    gates, calls := InFlightBoundIsTight(SHIPPED, true, 3);
    from := |calls|;
    ShippedSchedule(7);
    assert calls[..from] == calls && calls[from..] == [];
    var j: nat := 0;
    while j < n
      invariant j <= n && FreeRun(gates, calls, from, j)
    {
      gates, calls := FreeGuess(gates, calls, from, j);
      j := j + 1;
    }
  }

  lemma LastAt(calls: seq<Call>, from: nat)
    requires from <= |calls| && AllAt(calls[..from], 0) && AllAt(calls[from..], 900) && |calls| > 0
    ensures calls[|calls| - 1].now <= 900
  {
    var last := |calls| - 1;
    if last < from {
      assert calls[last] == calls[..from][last];
    } else {
      assert calls[last] == calls[from..][last - from];
    }
  }

  /** One request at a time on an account key: when it comes back, the lock it was admitted past is over. */
  ghost predicate GateOneAtATime(g: Gate, now: int) {
    && OneAtATime(g.entry) && (g.entry.lastFailure.Some? ==> g.entry.lastFailure.value <= now)
    && (g.inFlight > 0 ==> !Unexpired(g.entry, now))
  }

  lemma {:induction false} CallsOneAtATime(gates: seq<Gate>, calls: seq<Call>, i: nat)
    requires IsCallRun(SHIPPED, true, gates, calls) && gates[0] == Gate(FRESH, 0) && AtMostInFlight(gates, 1)
    requires i < |calls|
    ensures GateOneAtATime(gates[i], calls[i].now) && GateOneAtATime(gates[i + 1], calls[i].now)
    ensures !AdmittedReleased(SHIPPED, true, gates, calls, i)
  {
    if i > 0 {
      CallsOneAtATime(gates, calls, i - 1);
    }
    assert CallStep(SHIPPED, true, gates[i], calls[i], gates[i + 1]);
    NeverReleasedWhileLocked(gates[i].entry, calls[i].now);
    if calls[i].FailCall? {
      OneMoreAtATime(gates[i].entry, calls[i].now);
    }
  }

  /** But while at most one request of the key is in flight, the ceiling never lets one in: from a fresh
      account key on the shipped schedule, any six failures anywhere in the run span at least `Hold`. */
  lemma AccountOneInFlightTakesTime(gates: seq<Gate>, calls: seq<Call>, from: nat, to: nat)
    requires IsCallRun(SHIPPED, true, gates, calls) && gates[0] == Gate(FRESH, 0) && AtMostInFlight(gates, 1)
    requires from < to <= |calls| && calls[from].FailCall? && FailCount(calls[from..to]) >= 6
    ensures calls[to - 1].now - calls[from].now >= Hold(SHIPPED)
  {
    var part, between := gates[from..to + 1], calls[from..to];
    forall i | 0 <= i < |between|
      ensures CallStep(SHIPPED, true, part[i], between[i], part[i + 1])
      ensures !AdmittedReleased(SHIPPED, true, part, between, i)
    {
      assert CallStep(SHIPPED, true, gates[from + i], calls[from + i], gates[from + i + 1]);
      CallsOneAtATime(gates, calls, from + i);
    }
    InFlightGuessesTakeTime(SHIPPED, true, part, between, 1);
  }
}
