# FatalBattles account and daily-mission core, in Dafny

This project models the state machine inside the `FatalBattlesSystem` class of
`fatalbattles-simple/src/main.js`, and proves properties of it. A browser holds a
map of user accounts. Each account carries a FatalCoin balance, a claim counter,
two timestamps and the day's mission progress. A logged-in user completes three
link missions in order (steps 1, 2, 3), reaching step 4. They can then claim 100
FatalCoin once per 24 hours. Each claim starts a new day with fresh links. So does
each load that finds no links, or that comes more than 24 hours after the
account's last refresh stamp (a never-stamped account counts from 0).

The model has two layers.

- `Missions` (missions.dfy) describes each operation as a function from one
  session state to the next. Its lemmas state what the operations promise. The
  central one is the invariant `Missions.Valid`. Under it, every account's
  completed steps are exactly `1 .. currentStep-1` with `currentStep` in 1..4.
  Every account has valid links for steps 1..3 and a balance of 100 per claim.
  While someone is logged in, the mirrored `currentStep` field equals their
  record's step.
- `FatalBattles` (system.dfy) is the class itself. Its fields are `users`,
  `currentUser`, `currentStep` and the persisted `fatalbattles_user` session key
  (`savedUser`). Its methods update them in place, as the source does. Each
  method is proved to reach the state its `Missions` counterpart describes.
  `Login` follows the corrected order, writing the key before it loads.
  Every method that changes `users` keeps `Valid`, `CompleteStep` only for steps
  1..3, while `SaveCurrentUser` and `ShowCooldownTimer` state no `Valid` clause.

Supporting modules:

- `Generators` holds the two loops that build the daily links and the cosmetic
  reward key, each proved against a specification function.
- `Cooldown` holds the 24-hour guard and the countdown arithmetic.
- `Base64` models `btoa`, including its failure on characters above U+00FF. It
  proves that equal encodings mean equal passwords.
- `JsText` models JavaScript's UTF-16 `.length` and number-to-string rendering.
- `AsWritten` models the two places where the code misbehaves exactly as written
  (see Findings).

The environment becomes parameters:

- `Date.now()` becomes a `now: int` argument.
- Each `Math.random()` choice becomes a caller-supplied draw. `LinkDraws` holds
  a base-URL index and a clock reading per link. `KeyDraws` holds an alphabet
  index per key character.

JavaScript truthiness is kept where the code relies on it:

- A `lastClaim` of 0 counts as no claim.
- `currentStep || 1` and `lastLinksUpdate || 0` are modelled as written.
- An empty user name is falsy.

## Model

| member | source | states |
|---|---|---|
| JsText.Utf16Length | fatalbattles-simple/src/main.js:62-66 | `.length` counts UTF-16 code units: between the number of characters and twice it, and equal to it when every character is in the Basic Multilingual Plane |
| JsText.DecimalString | fatalbattles-simple/src/main.js:121 | the `${n}` rendering of a step number or a timestamp is non-empty and starts with '-' exactly when the number is negative |
| JsText.ParseNatString | fatalbattles-simple/src/main.js:121 | the decimal rendering of a natural number reads back to that number, so distinct step numbers give distinct links (Generators.MissionLinkStepInjective) |
| Base64.Btoa | fatalbattles-simple/src/main.js:71 | `btoa(password)` produces an encoding exactly when every code unit fits in one byte; otherwise it throws |
| Base64.EncodedLength | fatalbattles-simple/src/main.js:71 | the stored encoding has four characters for every started group of three bytes |
| Base64.DecodeEncode | fatalbattles-simple/src/main.js:71 | decoding the base64 digits gives back the encoded bytes |
| Base64.BtoaInjective | fatalbattles-simple/src/main.js:89 | two passwords with the same encoding are equal, so comparing `btoa` outputs compares passwords |
| Generators.IsValidLink | fatalbattles-simple/src/main.js:410-412 | a link is accepted exactly when it is present and its first four characters are "http"; an absent or shorter link is rejected |
| Generators.MissionLinkStepInjective | fatalbattles-simple/src/main.js:119-122 | two generated links are equal only for the same step number, whatever base URLs and clock readings were drawn: no base URL has a '?', and the step's digits end at the next '&' |
| Generators.BaseUrlsAreHttp | fatalbattles-simple/src/main.js:111-117 | each of the five base URLs starts with "http" |
| Generators.MissionLinkShape | fatalbattles-simple/src/main.js:119-122 | every generated link starts with its drawn base URL and is accepted by `isValidLink` (410-412) |
| Generators.DailyLinksValid | fatalbattles-simple/src/main.js:108-125 | the links object has exactly the keys 1, 2, 3; each link starts with the base URL drawn for its step and passes `isValidLink` |
| Generators.GenerateDailyLinks | fatalbattles-simple/src/main.js:119-124 | the loop returns the links object DailyLinksValid describes |
| Generators.KeyPrefixChars | fatalbattles-simple/src/main.js:262-265 | after n iterations the key has the expected length, and drawn character j sits at position j + j/4 |
| Generators.KeyPrefixLayout | fatalbattles-simple/src/main.js:262-265 | after n iterations every fifth position of the key holds a '-' |
| Generators.DailyKeyLayout | fatalbattles-simple/src/main.js:259-267 | the reward key has 19 characters, with '-' at positions 4, 9 and 14 |
| Generators.DailyKeyChars | fatalbattles-simple/src/main.js:259-267 | drawn character i of the sixteen lands at position i + i/4 |
| Generators.DailyKeyAlphabet | fatalbattles-simple/src/main.js:259-267 | every position other than 4, 9 and 14 holds a character of A-Z0-9 |
| Generators.GenerateDailyKey | fatalbattles-simple/src/main.js:259-267 | the loop returns the key DailyKeyLayout, DailyKeyChars and DailyKeyAlphabet describe |
| Cooldown.Split | fatalbattles-simple/src/main.js:352-354 | for a positive remainder, minutes and seconds are below 60 and hours·3600000 + minutes·60000 + seconds·1000 ≤ remainder < that + 1000 |
| Cooldown.SplitExact | fatalbattles-simple/src/main.js:352-354 | hours, minutes, seconds and the leftover milliseconds add back to the remainder exactly |
| Cooldown.OnCooldown | fatalbattles-simple/src/main.js:276 | a null or 0 last claim never blocks; a truthy one blocks exactly while now is before it plus 24 hours |
| Cooldown.CooldownTimer | fatalbattles-simple/src/main.js:346-354 | a countdown is shown exactly while now is before a truthy last claim plus 24 hours; it is then the remaining time in hours, minutes under 60 and seconds under 60, exact to below one second |
| Cooldown.TimerShownIffOnCooldown | fatalbattles-simple/src/main.js:344-351 | a countdown is shown exactly when a claim would be refused by the cooldown guard at line 276 |
| Cooldown.TimerAtMostADay | fatalbattles-simple/src/main.js:348-354 | for a claim stamped no later than now, the countdown never shows more than 24 hours, and shows 24 only at the instant of the claim |
| Missions.Register | fatalbattles-simple/src/main.js:57-85 | the checks run in order: name taken, name shorter than 3, password shorter than 4, then unencodable password. Any failure leaves `users` unchanged. Success happens exactly when all checks pass and adds one record: encoded password, balance 0, keysClaimed 0, no claim, no refresh time, step 1, no completed steps, fresh links. Every other record is unchanged |
| Missions.NeedsRefresh | fatalbattles-simple/src/main.js:136-139 | missing links always refresh; present links refresh exactly when now is more than 24 hours after `lastLinksUpdate \|\| 0`, so a never-stamped account refreshes once now exceeds 24 hours |
| Missions.SaveCurrentUser | fatalbattles-simple/src/main.js:508-512 | writes the session key exactly when the current user name is truthy, and changes nothing else |
| Missions.SavedUserIsLoaded | fatalbattles-simple/src/main.js:127-131 | once the key names the logged-in user, the next load restores that user and keeps the key; writing the key twice is the same as once |
| Missions.LoadUserProgress | fatalbattles-simple/src/main.js:127-153 | loads exactly when the stored session key names a record, and otherwise changes nothing. A load restores that user and `currentStep \|\| 1`. When the links are empty or `now - (lastLinksUpdate \|\| 0)` exceeds 24h, it stamps `now`, draws new links and restarts at step 1 with nothing completed, changing nothing else |
| Missions.Login | fatalbattles-simple/src/main.js:87-98 | succeeds exactly when the name has a record whose stored encoding equals `btoa(password)`; reports the encoding error exactly when `btoa` throws; any failure changes nothing. On success the session key is written and the user's progress loaded (the key is written first; see Findings); for a truthy name every other record is unchanged, and the user's password, balance, keysClaimed and lastClaim are kept; a stale account restarts its day (stamp `now`, step 1, fresh links), a fresh one keeps its record |
| Missions.CompleteStep | fatalbattles-simple/src/main.js:227-249 | changes state only when a user is logged in, the step is the record's current step and is not yet completed. It then appends the step and sets both the record's and the mirror's step to step + 1, leaving every other record and field unchanged |
| Missions.ClaimDailyReward | fatalbattles-simple/src/main.js:269-309 | the cooldown is checked first (a truthy last claim under 24h ago), then exactly 3 completed steps; any refusal changes nothing. Success adds exactly 100 to the balance and 1 to keysClaimed, sets lastClaim and lastLinksUpdate to `now`, restarts at step 1 with fresh links, and changes no other record |
| Missions.SaveUserProgress | fatalbattles-simple/src/main.js:518-523 | copies the mirrored step into the active record and changes nothing else |
| Missions.Logout | fatalbattles-simple/src/main.js:100-105 | saves the progress, then clears the current user and the stored session key |
| Missions.FreshUserValid | fatalbattles-simple/src/main.js:70-81 | a freshly created record satisfies the record invariant |
| Missions.RegisterPreservesValid | fatalbattles-simple/src/main.js:57-85 | registering keeps the invariant |
| Missions.RegisterThenLogin | fatalbattles-simple/src/main.js:70-71 | after a registration, logging in (89) with an attempt succeeds exactly when the attempt equals the registered password |
| Missions.RestartedDayValid | fatalbattles-simple/src/main.js:141-145 | a record restarted at step 1 with fresh links (as the refresh and the claim at 294-297 do) satisfies the record invariant |
| Missions.LoadRestoresValid | fatalbattles-simple/src/main.js:129-145 | a load that finds its user leaves the mirrored step equal to that user's step, even from a state whose mirror was stale |
| Missions.LoadPreservesValid | fatalbattles-simple/src/main.js:127-153 | loading keeps the invariant |
| Missions.LoadIdempotent | fatalbattles-simple/src/main.js:135-147 | a second load at the same `now` changes nothing, whatever it would draw |
| Missions.NoRefreshWithinADay | fatalbattles-simple/src/main.js:136-139 | with links present and refreshed at t, a load refreshes exactly when now > t + 24h |
| Missions.LoginPreservesValid | fatalbattles-simple/src/main.js:87-98 | logging in keeps the invariant |
| Missions.CompleteStepAdvancesIff | fatalbattles-simple/src/main.js:232-233 | under the invariant a step advances exactly when it equals the mirrored current step |
| Missions.CompleteStepPreservesValid | fatalbattles-simple/src/main.js:232-237 | completing steps 1 to 3 keeps the invariant |
| Missions.CompleteStepFourOverruns | fatalbattles-simple/src/main.js:232-237 | at step 4 a call `completeStep(4)` is accepted and moves the user to step 5, breaking the 1..4 range |
| Missions.ClaimPreservesValid | fatalbattles-simple/src/main.js:289-298 | claiming keeps the invariant, including balance = 100 × keysClaimed |
| Missions.ClaimReadyIffRewardStep | fatalbattles-simple/src/main.js:283 | off cooldown and under the invariant, a claim succeeds exactly at step 4 |
| Missions.SecondClaimRefused | fatalbattles-simple/src/main.js:276-286 | an immediate second claim changes nothing: it is refused on cooldown, or, if the claim was stamped 0, on incomplete missions |
| Missions.ClaimAndRefreshBoundary | fatalbattles-simple/src/main.js:276 | after a claim at t ≠ 0, the next claim is allowed from exactly t + 24h, while the links refresh (139) only after t + 24h |
| Missions.NewAccountRefreshesOnFirstLoad | fatalbattles-simple/src/main.js:75 | a new account's null refresh time reads as 0 (136), so its first load restarts its progress whenever now > 24h |
| Missions.LogoutPreservesValid | fatalbattles-simple/src/main.js:100-105 | logging out keeps the invariant and, under it, leaves every record unchanged |
| Missions.DailyCycle | fatalbattles-simple/src/main.js:227-309 | from step 1 off cooldown, completing 1, 2, 3 reaches step 4. The claim that follows succeeds, adds 100 and one key, and restarts at step 1 with nothing completed |
| Missions.OutOfOrderStepIgnored | fatalbattles-simple/src/main.js:232-233 | under the invariant, completing any step other than the current one changes nothing |
| AsWritten.RegisterAsWrittenAgrees | fatalbattles-simple/src/main.js:58 | the registration as written and the corrected one agree on every name not inherited from Object.prototype |
| AsWritten.InheritedNameReportedTaken | fatalbattles-simple/src/main.js:58 | with no accounts, "toString" is reported taken as written, and accepted by the corrected check |
| AsWritten.LoginAsWrittenKeepsStaleStep | fatalbattles-simple/src/main.js:93-95 | after a logout, logging in as another user keeps the previous mirrored step and breaks the invariant, and the next logout writes it into that user's record. The corrected Login keeps the invariant |
| AsWritten.RegisterAsWritten | fatalbattles-simple/src/main.js:57-58 | as written, a name that is stored or inherited from Object.prototype is reported taken; an account is created exactly when the corrected checks pass and the name is not inherited; any failure leaves `users` unchanged |
| AsWritten.LoginAsWritten | fatalbattles-simple/src/main.js:87-98 | as written, succeeds exactly when the name has a record with the matching encoding; an inherited name reaches `btoa` and reports its error; after a logout (no stored key naming a record) a success leaves `users` and the mirrored step as they were, and writes the key for a truthy name |
| FatalBattles.FatalBattlesSystem.constructor | fatalbattles-simple/src/main.js:3-17 | construction loads the stored session as `checkAuth` (526-532) does, and starts in a valid state when the stored records are valid |
| FatalBattles.FatalBattlesSystem.Register | fatalbattles-simple/src/main.js:57-85 | updates `users` and returns the outcome exactly as Missions.Register, and keeps the invariant |
| FatalBattles.FatalBattlesSystem.Login | fatalbattles-simple/src/main.js:87-98 | reaches the state and outcome of Missions.Login, and keeps the invariant |
| FatalBattles.FatalBattlesSystem.Logout | fatalbattles-simple/src/main.js:100-105 | reaches the state of Missions.Logout; under the invariant it keeps it and leaves `users` unchanged |
| FatalBattles.FatalBattlesSystem.LoadUserProgress | fatalbattles-simple/src/main.js:127-153 | reaches the state and result of Missions.LoadUserProgress, and keeps the invariant |
| FatalBattles.FatalBattlesSystem.CompleteStep | fatalbattles-simple/src/main.js:227-249 | reaches the state of Missions.CompleteStep, and keeps the invariant for steps 1..3 |
| FatalBattles.FatalBattlesSystem.ClaimDailyReward | fatalbattles-simple/src/main.js:269-309 | reaches the state and outcome of Missions.ClaimDailyReward, and keeps the invariant |
| FatalBattles.FatalBattlesSystem.SaveCurrentUser | fatalbattles-simple/src/main.js:508-512 | writes the session key exactly when the current user name is truthy |
| FatalBattles.FatalBattlesSystem.SaveUserProgress | fatalbattles-simple/src/main.js:518-523 | reaches the state of Missions.SaveUserProgress; under the invariant `users` is unchanged |
| FatalBattles.FatalBattlesSystem.ShowCooldownTimer | fatalbattles-simple/src/main.js:344-359 | returns a countdown exactly when a user is logged in and on cooldown, and then it is the split of the remaining time |

## Left out

- Presentation is not modelled: DOM updates, `setupEventListeners`, `setupMissionLinks`, `showStep` and `prepareReward`'s element writes. The same goes for `updateUI`, `updateLinksUpdateTime`, `showNotification`, `getNotificationIcon`, `showAuth` and `showMainApp`. The generated reward key is displayed only, so it is modelled as a value and never stored.
- `setupServiceWorker`, the `setTimeout` delays in `handleLogin`/`handleRegister` (with their `trim` and empty-field checks), the one-second interval and the `beforeunload` hook: browser timers and event plumbing.
- `localStorage` and JSON: `users` is an in-memory map and `saveUsers` has no counterpart. The `fatalbattles_user` key is the `savedUser` field, because `loadUserProgress` reads it.
- `Date.now()` is the `now` parameter. Each link's own clock reading is part of its draw. `Math.random()` choices are draws supplied by the caller.
- `updateProgress`'s percentage (floating point) and the `padStart` formatting of the countdown are display only.
- JavaScript numbers are doubles. Balances, counters and timestamps are unbounded integers here, which agrees with the source below 2^53.
- A missing `dailyLinks` object is not distinguished from an empty one. Every record has a links map, and an absent object refreshes exactly as an empty one does.
- Where the source throws, the model reports an outcome and leaves the state unchanged. This covers `btoa`'s InvalidCharacterError, and the TypeError when `currentUser` names no record in `completeStep` or `claimDailyReward`. In each case the source changes nothing before the throw.
- A stored session key that is an inherited property name is treated as naming no record. The source would fail reading its progress. Only a successful login writes that key, so the case needs a tampered store.
- FatalBattles.FatalBattlesSystem.CompleteStep: the invariant is kept only for steps 1..3. The buttons wire only steps 1 to 3 (main.js:40-42), but the global `window.completeStep` (main.js:561) accepts `completeStep(4)` at step 4 and moves to step 5; Missions.CompleteStepFourOverruns proves this.
- `showCooldownTimer` (main.js:344-345) does not test `this.currentUser`; with none it would look up the key "null". Every call site (277, 328, 567) tests it first, so FatalBattles.FatalBattlesSystem.ShowCooldownTimer tests for a truthy, stored name itself.

## Findings

| source | as written | input that shows it | evidently intended | confidence | as-written member | corrected member |
|---|---|---|---|---|---|---|
| fatalbattles-simple/src/main.js:93-95 | `login` calls `loadUserProgress` before `saveCurrentUser`, so the load reads the session key of the previous session; after a logout there is none, the load does nothing and the mirrored `currentStep` keeps the previous user's step | user A at step 3 logs out; user B, at step 1, logs in on the same browser; B's mirror says 3, and B's next logout stores step 3 with no completed missions (AsWritten.LoginAsWrittenKeepsStaleStep) | write the key, then load, so the new user's step is restored; Missions.LoginPreservesValid proves the invariant kept | not executed | AsWritten.LoginAsWritten | Missions.Login |
| fatalbattles-simple/src/main.js:58 | `if (this.users[username])` is truthy for names inherited from Object.prototype | registering "toString" with password "secret" on an empty store is refused as taken (AsWritten.InheritedNameReportedTaken) | test for an own key, `Object.hasOwn(this.users, username)`, and keep the accounts in an object without a prototype (`Object.create(null)`) or a `Map`, since on a plain object the assignment at 70 with the name "__proto__" replaces the prototype instead of adding an account. Missions.Register holds the accounts in such a map, where every name, "__proto__" included, is an ordinary key; Missions.RegisterPreservesValid proves it sound | not executed | AsWritten.RegisterAsWritten | Missions.Register |
