/** The 24-hour claim cooldown and the countdown shown while it runs. */
module Cooldown {
  import opened Wrappers

  /** `24 * 60 * 60 * 1000` milliseconds. */
  const DailyCooldown: int := 24 * 60 * 60 * 1000

  /** JavaScript truthiness of a stored timestamp: `null` and `0` both read as unset. */
  predicate IsSet(t: Option<int>)
  {
    t.Some? && t.value != 0
  }

  /** The claim guard: a truthy last claim less than 24 hours before `now`. */
  predicate OnCooldown(lastClaim: Option<int>, now: int): (blocked: bool)
    ensures !IsSet(lastClaim) ==> !blocked
    ensures IsSet(lastClaim) ==> (blocked <==> now < lastClaim.value + DailyCooldown)
  {
    IsSet(lastClaim) && now - lastClaim.value < DailyCooldown
  }

  datatype Clock = Clock(hours: int, minutes: int, seconds: int)

  function Millis(c: Clock): int
  {
    c.hours * 3_600_000 + c.minutes * 60_000 + c.seconds * 1000
  }

  /** Hours, minutes and seconds of a positive remainder. For positive operands
      JavaScript's `Math.floor(a / b)` and `a % b` agree with Dafny's `/` and `%`. */
  function Split(timeLeft: int): (c: Clock)
    requires timeLeft > 0
    ensures 0 <= c.hours && 0 <= c.minutes < 60 && 0 <= c.seconds < 60
    ensures Millis(c) <= timeLeft < Millis(c) + 1000
  {
    var c := Clock(timeLeft / 3_600_000, timeLeft % 3_600_000 / 60_000, timeLeft % 60_000 / 1000);
    SplitExact(timeLeft);
    c
  }

  lemma MinuteRemainder(t: int)
    requires t > 0
    ensures t % 3_600_000 % 60_000 == t % 60_000
  {
    var h, r := t / 3_600_000, t % 3_600_000;
    var m, q := r / 60_000, r % 60_000;
    assert t == (h * 60 + m) * 60_000 + q;
  }

  lemma SecondRemainder(t: int)
    requires t > 0
    ensures t % 60_000 % 1000 == t % 1000
  {
    var m, r := t / 60_000, t % 60_000;
    var s, q := r / 1000, r % 1000;
    assert t == (m * 60 + s) * 1000 + q;
  }

  lemma SplitExact(t: int)
    requires t > 0
    ensures t / 3_600_000 * 3_600_000 + t % 3_600_000 / 60_000 * 60_000 + t % 60_000 / 1000 * 1000 + t % 1000 == t
  {
    MinuteRemainder(t);
    SecondRemainder(t);
    var r := t % 3_600_000;
    assert t == t / 3_600_000 * 3_600_000 + r;
    assert r == r / 60_000 * 60_000 + t % 60_000;
    assert t % 60_000 == t % 60_000 / 1000 * 1000 + t % 1000;
  }

  /** What `showCooldownTimer` displays: nothing when no claim is recorded or the
      cooldown has ended, otherwise the split of what is left of it. */
  function CooldownTimer(lastClaim: Option<int>, now: int): (shown: Option<Clock>)
    ensures shown.Some? <==> IsSet(lastClaim) && now < lastClaim.value + DailyCooldown
    ensures shown.Some? ==>
              0 <= shown.value.hours && 0 <= shown.value.minutes < 60 && 0 <= shown.value.seconds < 60
              && Millis(shown.value) <= lastClaim.value + DailyCooldown - now < Millis(shown.value) + 1000
  {
    if !IsSet(lastClaim) then None
    else
      var timeLeft := lastClaim.value + DailyCooldown - now;
      if timeLeft > 0 then Some(Split(timeLeft)) else None
  }

  /** The countdown is shown exactly while a claim would be refused on cooldown. */
  lemma TimerShownIffOnCooldown(lastClaim: Option<int>, now: int)
    ensures CooldownTimer(lastClaim, now).Some? <==> OnCooldown(lastClaim, now)
  {
  }

  /** Since the cooldown lasts 24 hours, for a claim stamped no later than now
      the countdown never shows more than 24:00:00, and shows exactly that only
      at the instant of the claim. */
  lemma TimerAtMostADay(lastClaim: Option<int>, now: int)
    requires IsSet(lastClaim) && lastClaim.value <= now
    requires CooldownTimer(lastClaim, now).Some?
    ensures CooldownTimer(lastClaim, now).value.hours <= 24
    ensures CooldownTimer(lastClaim, now).value.hours == 24 <==> now == lastClaim.value
  {
    var timeLeft := lastClaim.value + DailyCooldown - now;
    var c := Split(timeLeft);
    assert Millis(c) <= timeLeft <= DailyCooldown;
  }
}
