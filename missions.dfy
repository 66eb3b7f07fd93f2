/** The account and daily-mission state machine of `FatalBattlesSystem`, as
    functions from one state to the next. `now` stands for `Date.now()`. */
module Missions {
  import opened Wrappers
  import opened JsText
  import opened Base64
  import opened Generators
  import opened Cooldown

  /** FatalCoin paid per claim. */
  const RewardAmount: int := 100

  /** The step reached once the three missions are done: the reward is pending. */
  const RewardStep: int := 4

  datatype DailyProgress = DailyProgress(currentStep: int, completedSteps: seq<int>, dailyLinks: map<int, string>)

  /** One stored account; `password` holds `btoa(password)`. */
  datatype User = User(
    password: string,
    balance: int,
    keysClaimed: int,
    lastClaim: Option<int>,
    lastLinksUpdate: Option<int>,
    dailyProgress: DailyProgress)

  /** The fields of `FatalBattlesSystem` the core reads and writes, together with
      the persisted `fatalbattles_user` key (`savedUser`), which `loadUserProgress`
      reads. */
  datatype Session = Session(
    users: map<string, User>,
    currentUser: Option<string>,
    currentStep: int,
    savedUser: Option<string>)

  datatype RegisterOutcome = Created | NameTaken | NameTooShort | PasswordTooShort | RegisterEncodingError
  datatype LoginOutcome = Welcome | WrongCredentials | LoginEncodingError
  datatype ClaimOutcome = NoActiveUser | CooldownActive | MissionsIncomplete | RewardClaimed

  /** A truthy user name: set, and not the empty string. */
  predicate Named(name: Option<string>)
  {
    name.Some? && name.value != ""
  }

  /** `this.currentUser` is truthy and names a record. Where it names none the
      source fails on the missing record before it changes anything. */
  predicate HasActiveUser(s: Session)
  {
    Named(s.currentUser) && s.currentUser.value in s.users
  }

  function ActiveUser(s: Session): User
    requires HasActiveUser(s)
  {
    s.users[s.currentUser.value]
  }

  // ---------------------------------------------------------------- invariant

  /** 1, 2, ..., step - 1 */
  function StepsBefore(step: int): seq<int>
    requires step >= 1
  {
    seq(step - 1, i => i + 1)
  }

  /** Missions are completed strictly in order: the completed list is exactly the
      steps before the current one, and the current step is 1..4. */
  predicate SequentialProgress(p: DailyProgress)
  {
    1 <= p.currentStep <= RewardStep && p.completedSteps == StepsBefore(p.currentStep)
  }

  predicate ValidLinks(links: map<int, string>)
  {
    links.Keys == {1, 2, 3} && forall step :: step in links ==> IsValidLink(Some(links[step]))
  }

  predicate ValidUser(name: string, u: User)
  {
    Utf16Length(name) >= 3
    && SequentialProgress(u.dailyProgress)
    && ValidLinks(u.dailyProgress.dailyLinks)
    && u.keysClaimed >= 0
    && u.balance == RewardAmount * u.keysClaimed
  }

  /** Every record is well formed, and while someone is logged in the mirrored
      `this.currentStep` equals the record's `currentStep`. */
  predicate UsersValid(users: map<string, User>)
  {
    forall name :: name in users ==> ValidUser(name, users[name])
  }

  predicate Valid(s: Session)
  {
    UsersValid(s.users)
    && (s.currentUser.Some? ==>
          s.currentUser.value in s.users
          && s.currentStep == s.users[s.currentUser.value].dailyProgress.currentStep)
  }

  // ----------------------------------------------------------------- register

  function NewUser(encoded: string, links: map<int, string>): User
  {
    User(encoded, 0, 0, None, None, DailyProgress(1, [], links))
  }

  predicate CanRegister(users: map<string, User>, name: string, password: string)
  {
    name !in users && Utf16Length(name) >= 3 && Utf16Length(password) >= 4 && Latin1(password)
  }

  /** `register`. A password `btoa` cannot encode makes the source throw after
      the checks and before the insertion: RegisterEncodingError. */
  function Register(users: map<string, User>, name: string, password: string, draws: LinkDraws)
    : (r: (map<string, User>, RegisterOutcome))
    ensures r.1 == Created <==> CanRegister(users, name, password)
    ensures r.1 != Created ==> r.0 == users
    ensures name in users ==> r.1 == NameTaken
    ensures name !in users && Utf16Length(name) < 3 ==> r.1 == NameTooShort
    ensures name !in users && Utf16Length(name) >= 3 && Utf16Length(password) < 4 ==> r.1 == PasswordTooShort
    ensures name !in users && Utf16Length(name) >= 3 && Utf16Length(password) >= 4 && !Latin1(password) ==>
              r.1 == RegisterEncodingError
    ensures r.1 == Created ==>
              r.0.Keys == users.Keys + {name}
              && (forall other :: other in users ==> r.0[other] == users[other])
              && Btoa(password) == Some(r.0[name].password)
              && r.0[name].balance == 0 && r.0[name].keysClaimed == 0
              && r.0[name].lastClaim == None && r.0[name].lastLinksUpdate == None
              && r.0[name].dailyProgress.currentStep == 1
              && r.0[name].dailyProgress.completedSteps == []
              && r.0[name].dailyProgress.dailyLinks == DailyLinks(draws)
  {
    if name in users then (users, NameTaken)
    else if Utf16Length(name) < 3 then (users, NameTooShort)
    else if Utf16Length(password) < 4 then (users, PasswordTooShort)
    else match Btoa(password)
      case None => (users, RegisterEncodingError)
      case Some(encoded) => (users[name := NewUser(encoded, DailyLinks(draws))], Created)
  }

  // ------------------------------------------------------- loadUserProgress

  /** `user.lastLinksUpdate || 0` */
  function LastLinksUpdate(u: User): int
  {
    if u.lastLinksUpdate.Some? then u.lastLinksUpdate.value else 0
  }

  /** The links are missing, or more than 24 hours old. */
  predicate NeedsRefresh(u: User, now: int): (stale: bool)
    ensures |u.dailyProgress.dailyLinks| == 0 ==> stale
    ensures |u.dailyProgress.dailyLinks| > 0 ==> (stale <==> now > LastLinksUpdate(u) + DailyCooldown)
    ensures u.lastLinksUpdate.None? ==> (stale <==> |u.dailyProgress.dailyLinks| == 0 || now > DailyCooldown)
  {
    |u.dailyProgress.dailyLinks| == 0 || now - LastLinksUpdate(u) > DailyCooldown
  }

  /** `user.dailyProgress.currentStep || 1` */
  function StepOrOne(u: User): int
  {
    if u.dailyProgress.currentStep == 0 then 1 else u.dailyProgress.currentStep
  }

  /** `loadUserProgress`: restores the session named by the stored key, and when
      the links are missing or stale draws new ones and restarts the day. */
  function LoadUserProgress(s: Session, now: int, draws: LinkDraws): (r: (Session, bool))
    ensures r.1 <==> Named(s.savedUser) && s.savedUser.value in s.users
    ensures !r.1 ==> r.0 == s
    ensures r.1 ==>
              r.0.currentUser == s.savedUser && r.0.savedUser == s.savedUser
              && r.0.users.Keys == s.users.Keys
              && forall other :: other in s.users && other != s.savedUser.value ==> r.0.users[other] == s.users[other]
    ensures r.1 && NeedsRefresh(s.users[s.savedUser.value], now) ==>
              var u, u' := s.users[s.savedUser.value], r.0.users[s.savedUser.value];
              u'.lastLinksUpdate == Some(now)
              && u'.dailyProgress == DailyProgress(1, [], DailyLinks(draws))
              && u'.(lastLinksUpdate := u.lastLinksUpdate, dailyProgress := u.dailyProgress) == u
              && r.0.currentStep == 1
    ensures r.1 && !NeedsRefresh(s.users[s.savedUser.value], now) ==>
              r.0.users == s.users && r.0.currentStep == StepOrOne(s.users[s.savedUser.value])
  {
    if Named(s.savedUser) && s.savedUser.value in s.users then
      var name := s.savedUser.value;
      var u := s.users[name];
      if NeedsRefresh(u, now) then
        var u' := u.(lastLinksUpdate := Some(now), dailyProgress := DailyProgress(1, [], DailyLinks(draws)));
        (s.(users := s.users[name := u'], currentUser := Some(name), currentStep := 1), true)
      else
        (s.(currentUser := Some(name), currentStep := StepOrOne(u)), true)
    else
      (s, false)
  }

  // -------------------------------------------------------------------- login

  /** `saveCurrentUser`: the key is written only for a truthy user name. */
  function SaveCurrentUser(s: Session): (r: Session)
    ensures Named(s.currentUser) ==> r.savedUser == s.currentUser
    ensures !Named(s.currentUser) ==> r == s
    ensures r.(savedUser := s.savedUser) == s
  {
    if Named(s.currentUser) then s.(savedUser := s.currentUser) else s
  }

  /** `login`, with the session key written before the progress is loaded (the
      source writes it after; see AsWritten.LoginAsWritten). */
  function Login(s: Session, name: string, password: string, now: int, draws: LinkDraws)
    : (r: (Session, LoginOutcome))
    ensures r.1 == Welcome <==> name in s.users && Btoa(password) == Some(s.users[name].password)
    ensures r.1 == LoginEncodingError <==> name in s.users && !Latin1(password)
    ensures r.1 != Welcome ==> r.0 == s
    ensures r.1 == Welcome ==> r.0.users.Keys == s.users.Keys
    ensures r.1 == Welcome && name != "" ==>
              (forall other :: other in s.users && other != name ==> r.0.users[other] == s.users[other])
              && var u, u' := s.users[name], r.0.users[name];
                 u'.password == u.password && u'.balance == u.balance
                 && u'.keysClaimed == u.keysClaimed && u'.lastClaim == u.lastClaim
    ensures r.1 == Welcome && name != "" && NeedsRefresh(s.users[name], now) ==>
              r.0.users[name].dailyProgress == DailyProgress(1, [], DailyLinks(draws))
              && r.0.users[name].lastLinksUpdate == Some(now)
    ensures r.1 == Welcome && name != "" && !NeedsRefresh(s.users[name], now) ==> r.0.users == s.users
    ensures r.1 == Welcome && name != "" ==>
              r.0.currentUser == Some(name) && r.0.savedUser == Some(name)
              && r.0.currentStep == StepOrOne(r.0.users[name])
  {
    if name !in s.users then (s, WrongCredentials)
    else match Btoa(password)
      case None => (s, LoginEncodingError)
      case Some(encoded) =>
        if s.users[name].password != encoded then (s, WrongCredentials)
        else (LoadUserProgress(SaveCurrentUser(s.(currentUser := Some(name))), now, draws).0, Welcome)
  }

  // ------------------------------------------------------------- completeStep

  predicate CanComplete(s: Session, step: int)
  {
    HasActiveUser(s)
    && ActiveUser(s).dailyProgress.currentStep == step
    && step !in ActiveUser(s).dailyProgress.completedSteps
  }

  /** `completeStep`: only the current, not yet completed step advances. */
  function CompleteStep(s: Session, step: int): (r: Session)
    ensures !CanComplete(s, step) ==> r == s
    ensures CanComplete(s, step) ==> r.users.Keys == s.users.Keys
    ensures CanComplete(s, step) ==>
              var name := s.currentUser.value;
              var u, u' := s.users[name], r.users[name];
              (forall other :: other in s.users && other != name ==> r.users[other] == s.users[other])
              && u'.dailyProgress.completedSteps == u.dailyProgress.completedSteps + [step]
              && u'.dailyProgress.currentStep == step + 1
              && r.currentStep == step + 1
              && u'.(dailyProgress := u.dailyProgress) == u
              && u'.dailyProgress.dailyLinks == u.dailyProgress.dailyLinks
              && r.currentUser == s.currentUser && r.savedUser == s.savedUser
  {
    if CanComplete(s, step) then
      var name := s.currentUser.value;
      var u := s.users[name];
      var p := u.dailyProgress.(completedSteps := u.dailyProgress.completedSteps + [step], currentStep := step + 1);
      s.(users := s.users[name := u.(dailyProgress := p)], currentStep := step + 1)
    else
      s
  }

  // --------------------------------------------------------- claimDailyReward

  /** `claimDailyReward`: the cooldown is checked first, then the missions. */
  function ClaimDailyReward(s: Session, now: int, draws: LinkDraws): (r: (Session, ClaimOutcome))
    ensures r.1 != RewardClaimed ==> r.0 == s
    ensures !HasActiveUser(s) ==> r.1 == NoActiveUser
    ensures HasActiveUser(s) && OnCooldown(ActiveUser(s).lastClaim, now) ==> r.1 == CooldownActive
    ensures (HasActiveUser(s) && !OnCooldown(ActiveUser(s).lastClaim, now)
             && |ActiveUser(s).dailyProgress.completedSteps| != 3) ==> r.1 == MissionsIncomplete
    ensures r.1 == RewardClaimed <==>
              HasActiveUser(s) && !OnCooldown(ActiveUser(s).lastClaim, now)
              && |ActiveUser(s).dailyProgress.completedSteps| == 3
    ensures r.1 == RewardClaimed ==> r.0.users.Keys == s.users.Keys
    ensures r.1 == RewardClaimed ==>
              var name := s.currentUser.value;
              var u, u' := s.users[name], r.0.users[name];
              (forall other :: other in s.users && other != name ==> r.0.users[other] == s.users[other])
              && u'.balance == u.balance + RewardAmount
              && u'.keysClaimed == u.keysClaimed + 1
              && u'.lastClaim == Some(now) && u'.lastLinksUpdate == Some(now)
              && u'.dailyProgress == DailyProgress(1, [], DailyLinks(draws))
              && u'.password == u.password
              && r.0.currentStep == 1
              && r.0.currentUser == s.currentUser && r.0.savedUser == s.savedUser
  {
    if !HasActiveUser(s) then (s, NoActiveUser)
    else
      var name := s.currentUser.value;
      var u := s.users[name];
      if OnCooldown(u.lastClaim, now) then (s, CooldownActive)
      else if |u.dailyProgress.completedSteps| != 3 then (s, MissionsIncomplete)
      else
        var u' := u.(balance := u.balance + RewardAmount, keysClaimed := u.keysClaimed + 1, lastClaim := Some(now),
                     lastLinksUpdate := Some(now), dailyProgress := DailyProgress(1, [], DailyLinks(draws)));
        (s.(users := s.users[name := u'], currentStep := 1), RewardClaimed)
  }

  // ------------------------------------------------------ saveUserProgress, logout

  /** `saveUserProgress`: copies the mirrored step into the active record. */
  function SaveUserProgress(s: Session): (r: Session)
    ensures !HasActiveUser(s) ==> r == s
    ensures HasActiveUser(s) ==>
              var name := s.currentUser.value;
              r.users.Keys == s.users.Keys
              && (forall other :: other in s.users && other != name ==> r.users[other] == s.users[other])
              && r.users[name].dailyProgress.currentStep == s.currentStep
              && r.users[name].(dailyProgress := s.users[name].dailyProgress) == s.users[name]
              && r.users[name].dailyProgress.(currentStep := s.users[name].dailyProgress.currentStep)
                 == s.users[name].dailyProgress
              && r.(users := s.users) == s
  {
    if HasActiveUser(s) then
      var name := s.currentUser.value;
      var u := s.users[name];
      s.(users := s.users[name := u.(dailyProgress := u.dailyProgress.(currentStep := s.currentStep))])
    else
      s
  }

  /** `logout`: saves the progress, then forgets the session in memory and in storage. */
  function Logout(s: Session): (r: Session)
    ensures r.currentUser == None && r.savedUser == None
    ensures r.currentStep == s.currentStep
    ensures r.users == SaveUserProgress(s).users
  {
    SaveUserProgress(s).(currentUser := None, savedUser := None)
  }

  // ------------------------------------------------------------------- lemmas

  lemma StepsBeforeNext(step: int)
    requires step >= 1
    ensures StepsBefore(step) + [step] == StepsBefore(step + 1)
  {
    assert forall i :: 0 <= i < step ==> (StepsBefore(step) + [step])[i] == StepsBefore(step + 1)[i];
  }

  lemma FreshUserValid(name: string, encoded: string, draws: LinkDraws)
    requires Utf16Length(name) >= 3
    ensures ValidUser(name, NewUser(encoded, DailyLinks(draws)))
  {
    DailyLinksValid(draws);
    assert StepsBefore(1) == [];
  }

  lemma RegisterPreservesValid(s: Session, name: string, password: string, draws: LinkDraws)
    requires Valid(s)
    ensures Valid(s.(users := Register(s.users, name, password, draws).0))
  {
    var r := Register(s.users, name, password, draws);
    if r.1 == Created {
      FreshUserValid(name, r.0[name].password, draws);
    }
  }

  /** A fresh account can log in with the password it registered with and
      with no other. */
  lemma RegisterThenLogin(s: Session, name: string, password: string, attempt: string,
                          draws: LinkDraws, now: int, draws': LinkDraws)
    requires Register(s.users, name, password, draws).1 == Created
    ensures var s' := s.(users := Register(s.users, name, password, draws).0);
            Login(s', name, attempt, now, draws').1 == Welcome <==> attempt == password
  {
    var s' := s.(users := Register(s.users, name, password, draws).0);
    if Login(s', name, attempt, now, draws').1 == Welcome {
      BtoaInjective(attempt, password);
    }
  }

  lemma UpdateKeepsUsersValid(users: map<string, User>, name: string, u: User)
    requires UsersValid(users) && ValidUser(name, u)
    ensures UsersValid(users[name := u])
  {
  }

  /** The record a refresh or a claim leaves: day restarted with fresh links. */
  lemma RestartedDayValid(name: string, u: User, u': User, draws: LinkDraws)
    requires ValidUser(name, u)
    requires u'.dailyProgress == DailyProgress(1, [], DailyLinks(draws))
    requires u'.keysClaimed >= 0 && u'.balance == RewardAmount * u'.keysClaimed
    ensures ValidUser(name, u')
  {
    DailyLinksValid(draws);
    assert StepsBefore(1) == [];
  }

  /** A load that finds its user leaves the mirror equal to that user's step. */
  lemma LoadRestoresValid(s: Session, now: int, draws: LinkDraws)
    requires UsersValid(s.users) && Named(s.savedUser) && s.savedUser.value in s.users
    ensures Valid(LoadUserProgress(s, now, draws).0)
  {
    var name := s.savedUser.value;
    var u := s.users[name];
    if NeedsRefresh(u, now) {
      var u' := u.(lastLinksUpdate := Some(now), dailyProgress := DailyProgress(1, [], DailyLinks(draws)));
      RestartedDayValid(name, u, u', draws);
      UpdateKeepsUsersValid(s.users, name, u');
      assert LoadUserProgress(s, now, draws).0 == s.(users := s.users[name := u'], currentUser := Some(name), currentStep := 1);
    }
  }

  lemma LoadPreservesValid(s: Session, now: int, draws: LinkDraws)
    requires Valid(s)
    ensures Valid(LoadUserProgress(s, now, draws).0)
  {
    if LoadUserProgress(s, now, draws).1 {
      LoadRestoresValid(s, now, draws);
    }
  }

  /** Loading twice at the same instant changes nothing the first load did not. */
  lemma LoadIdempotent(s: Session, now: int, draws: LinkDraws, draws': LinkDraws)
    ensures var s1 := LoadUserProgress(s, now, draws).0;
            LoadUserProgress(s1, now, draws') == (s1, LoadUserProgress(s, now, draws).1)
  {
    var r := LoadUserProgress(s, now, draws);
    if r.1 && NeedsRefresh(s.users[s.savedUser.value], now) {
      DailyLinksValid(draws);
      assert 1 in r.0.users[s.savedUser.value].dailyProgress.dailyLinks;
    }
  }

  /** Once the key names the logged-in user, the next load restores that user
      and keeps the key; writing the key again changes nothing. */
  lemma SavedUserIsLoaded(s: Session, now: int, draws: LinkDraws)
    requires HasActiveUser(s)
    ensures SaveCurrentUser(SaveCurrentUser(s)) == SaveCurrentUser(s)
    ensures var r := LoadUserProgress(SaveCurrentUser(s), now, draws);
            r.1 && r.0.currentUser == s.currentUser && r.0.savedUser == s.currentUser
  {
  }

  /** Within 24 hours of a refresh, later loads leave the links alone. */
  lemma NoRefreshWithinADay(u: User, t: int, now: int)
    requires u.lastLinksUpdate == Some(t) && |u.dailyProgress.dailyLinks| > 0
    ensures NeedsRefresh(u, now) <==> now > t + DailyCooldown
  {
  }

  lemma LoginPreservesValid(s: Session, name: string, password: string, now: int, draws: LinkDraws)
    requires Valid(s)
    ensures Valid(Login(s, name, password, now, draws).0)
  {
    if Login(s, name, password, now, draws).1 == Welcome {
      var signedIn := SaveCurrentUser(s.(currentUser := Some(name)));
      assert Utf16Length(name) >= 3;
      LoadRestoresValid(signedIn, now, draws);
    }
  }

  /** With the invariant, the `includes` test is redundant: a step advances
      exactly when it is the current one. */
  lemma CompleteStepAdvancesIff(s: Session, step: int)
    requires Valid(s) && HasActiveUser(s)
    ensures CanComplete(s, step) <==> step == s.currentStep
  {
    var p := ActiveUser(s).dailyProgress;
    if step == p.currentStep {
      assert forall i :: 0 <= i < |p.completedSteps| ==> p.completedSteps[i] < step;
    }
  }

  lemma CompleteStepPreservesValid(s: Session, step: int)
    requires Valid(s) && 1 <= step <= 3
    ensures Valid(CompleteStep(s, step))
  {
    if CanComplete(s, step) {
      StepsBeforeNext(step);
      var name := s.currentUser.value;
      assert ValidUser(name, CompleteStep(s, step).users[name]);
    }
  }

  /** The source does not stop at the reward step: completing step 4 (reachable
      through the global `completeStep`) leaves the sequence 1..4. */
  lemma CompleteStepFourOverruns(s: Session)
    requires Valid(s) && HasActiveUser(s) && s.currentStep == RewardStep
    ensures CanComplete(s, 4)
    ensures CompleteStep(s, 4).currentStep == 5
    ensures !Valid(CompleteStep(s, 4))
  {
    CompleteStepAdvancesIff(s, 4);
    var name := s.currentUser.value;
    assert !SequentialProgress(CompleteStep(s, 4).users[name].dailyProgress);
  }

  lemma ClaimPreservesValid(s: Session, now: int, draws: LinkDraws)
    requires Valid(s)
    ensures Valid(ClaimDailyReward(s, now, draws).0)
  {
    var r := ClaimDailyReward(s, now, draws);
    if r.1 == RewardClaimed {
      var name := s.currentUser.value;
      RestartedDayValid(name, s.users[name], r.0.users[name], draws);
      UpdateKeepsUsersValid(s.users, name, r.0.users[name]);
      assert r.0.users == s.users[name := r.0.users[name]];
    }
  }

  /** Under the invariant the three missions are done exactly at the reward step. */
  lemma ClaimReadyIffRewardStep(s: Session, now: int, draws: LinkDraws)
    requires Valid(s) && HasActiveUser(s) && !OnCooldown(ActiveUser(s).lastClaim, now)
    ensures ClaimDailyReward(s, now, draws).1 == RewardClaimed <==> s.currentStep == RewardStep
  {
  }

  /** A claim cannot be repeated at once: the second one changes nothing, and is
      refused on the cooldown unless the claim was stamped 0, which JavaScript
      reads as no claim at all. */
  lemma SecondClaimRefused(s: Session, now: int, draws: LinkDraws, draws': LinkDraws)
    requires ClaimDailyReward(s, now, draws).1 == RewardClaimed
    ensures var s1 := ClaimDailyReward(s, now, draws).0;
            var r2 := ClaimDailyReward(s1, now, draws');
            r2.0 == s1
            && (now != 0 ==> r2.1 == CooldownActive)
            && (now == 0 ==> r2.1 == MissionsIncomplete)
  {
  }

  /** After a claim at time t, the next claim is allowed from exactly t + 24h,
      while the links are refreshed only after t + 24h. */
  lemma ClaimAndRefreshBoundary(s: Session, t: int, draws: LinkDraws, now: int)
    requires t != 0 && ClaimDailyReward(s, t, draws).1 == RewardClaimed
    ensures var u := ActiveUser(ClaimDailyReward(s, t, draws).0);
            (!OnCooldown(u.lastClaim, now) <==> now >= t + DailyCooldown)
            && (NeedsRefresh(u, now) <==> now > t + DailyCooldown)
  {
    var u := ActiveUser(ClaimDailyReward(s, t, draws).0);
    DailyLinksValid(draws);
    assert 1 in u.dailyProgress.dailyLinks;
  }

  /** A new account has no refresh time, so the first load after the first day of
      the epoch restarts its progress. */
  lemma NewAccountRefreshesOnFirstLoad(users: map<string, User>, name: string, password: string,
                                       draws: LinkDraws, now: int)
    requires Register(users, name, password, draws).1 == Created
    ensures NeedsRefresh(Register(users, name, password, draws).0[name], now) <==> now > DailyCooldown
  {
  }

  lemma LogoutPreservesValid(s: Session)
    requires Valid(s)
    ensures Valid(Logout(s))
    ensures Logout(s).users == s.users
  {
    if HasActiveUser(s) {
      var name := s.currentUser.value;
      assert SaveUserProgress(s).users[name] == s.users[name];
    }
  }

  /** One full day: from a fresh day off cooldown, missions 1, 2, 3 in order and a
      claim pay 100 and start the next day. */
  lemma DailyCycle(s: Session, now: int, draws: LinkDraws)
    requires Valid(s) && HasActiveUser(s) && s.currentStep == 1
    requires !OnCooldown(ActiveUser(s).lastClaim, now)
    ensures var s3 := CompleteStep(CompleteStep(CompleteStep(s, 1), 2), 3);
            var r := ClaimDailyReward(s3, now, draws);
            s3.currentStep == RewardStep
            && r.1 == RewardClaimed
            && ActiveUser(r.0).balance == ActiveUser(s).balance + RewardAmount
            && ActiveUser(r.0).keysClaimed == ActiveUser(s).keysClaimed + 1
            && r.0.currentStep == 1
            && ActiveUser(r.0).dailyProgress.completedSteps == []
  {
    CompleteStepAdvancesIff(s, 1);
    CompleteStepPreservesValid(s, 1);
    var s1 := CompleteStep(s, 1);
    CompleteStepAdvancesIff(s1, 2);
    CompleteStepPreservesValid(s1, 2);
    var s2 := CompleteStep(s1, 2);
    CompleteStepAdvancesIff(s2, 3);
    CompleteStepPreservesValid(s2, 3);
    var s3 := CompleteStep(s2, 3);
    assert ActiveUser(s3).lastClaim == ActiveUser(s).lastClaim;
  }

  /** A step out of order changes nothing. */
  lemma OutOfOrderStepIgnored(s: Session, step: int)
    requires Valid(s) && HasActiveUser(s) && step != s.currentStep
    ensures CompleteStep(s, step) == s
  {
    CompleteStepAdvancesIff(s, step);
  }
}
