/** `FatalBattlesSystem` itself: an object whose methods update its fields in
    place. Each method is proved to produce the next state its counterpart in
    Missions describes, and to keep Missions.Valid. */
module FatalBattles {
  import opened Wrappers
  import opened JsText
  import opened Base64
  import opened Generators
  import opened Cooldown
  import opened Missions

  class FatalBattlesSystem {
    var currentUser: Option<string>
    var users: map<string, User>
    var currentStep: int
    /** The persisted `fatalbattles_user` key. */
    var savedUser: Option<string>
    const dailyCooldown: int := 24 * 60 * 60 * 1000

    function State(): Session
      reads this
    {
      Session(users, currentUser, currentStep, savedUser)
    }

    /** `new FatalBattlesSystem()` on a browser whose storage holds `stored` and
        the session key `storedSession`: `init` loads the users and, through
        `checkAuth`, the stored session. */
    constructor (stored: map<string, User>, storedSession: Option<string>, now: int, draws: LinkDraws)
      ensures State() == Missions.LoadUserProgress(Session(stored, None, 1, storedSession), now, draws).0
      ensures UsersValid(stored) ==> Valid(State())
    {
      currentUser := None;
      users := stored;
      currentStep := 1;
      savedUser := storedSession;
      new;
      var _ := LoadUserProgress(now, draws);
    }

    method Register(username: string, password: string, draws: LinkDraws) returns (outcome: RegisterOutcome)
      modifies this`users
      ensures (users, outcome) == Missions.Register(old(users), username, password, draws)
      ensures Valid(old(State())) ==> Valid(State())
    {
      if username in users {
        return NameTaken;
      }
      if Utf16Length(username) < 3 {
        return NameTooShort;
      }
      if Utf16Length(password) < 4 {
        return PasswordTooShort;
      }
      var encoded := Btoa(password);
      if encoded.None? {
        return RegisterEncodingError;
      }
      var links := GenerateDailyLinks(draws);
      users := users[username := User(encoded.value, 0, 0, None, None, DailyProgress(1, [], links))];
      outcome := Created;
      if Valid(old(State())) {
        RegisterPreservesValid(old(State()), username, password, draws);
      }
    }

    method Login(username: string, password: string, now: int, draws: LinkDraws) returns (outcome: LoginOutcome)
      modifies this
      ensures (State(), outcome) == Missions.Login(old(State()), username, password, now, draws)
      ensures Valid(old(State())) ==> Valid(State())
    {
      if username !in users {
        return WrongCredentials;
      }
      var encoded := Btoa(password);
      if encoded.None? {
        return LoginEncodingError;
      }
      if users[username].password != encoded.value {
        return WrongCredentials;
      }
      currentUser := Some(username);
      SaveCurrentUser();
      var _ := LoadUserProgress(now, draws);
      outcome := Welcome;
      if Valid(old(State())) {
        LoginPreservesValid(old(State()), username, password, now, draws);
      }
    }

    method Logout()
      modifies this
      ensures State() == Missions.Logout(old(State()))
      ensures Valid(old(State())) ==> Valid(State()) && users == old(users)
    {
      SaveUserProgress();
      currentUser := None;
      savedUser := None;
      if Valid(old(State())) {
        LogoutPreservesValid(old(State()));
      }
    }

    method LoadUserProgress(now: int, draws: LinkDraws) returns (loaded: bool)
      modifies this
      ensures (State(), loaded) == Missions.LoadUserProgress(old(State()), now, draws)
      ensures Valid(old(State())) ==> Valid(State())
    {
      if Valid(State()) {
        LoadPreservesValid(State(), now, draws);
      }
      if savedUser.None? || savedUser.value == "" || savedUser.value !in users {
        return false;
      }
      var name := savedUser.value;
      currentUser := Some(name);
      var user := users[name];
      currentStep := if user.dailyProgress.currentStep == 0 then 1 else user.dailyProgress.currentStep;
      var lastUpdate := if user.lastLinksUpdate.Some? then user.lastLinksUpdate.value else 0;
      if |user.dailyProgress.dailyLinks| == 0 || now - lastUpdate > dailyCooldown {
        var links := GenerateDailyLinks(draws);
        user := user.(lastLinksUpdate := Some(now), dailyProgress := DailyProgress(1, [], links));
        users := users[name := user];
        currentStep := 1;
      }
      loaded := true;
      assert (State(), loaded) == Missions.LoadUserProgress(old(State()), now, draws);
    }

    method CompleteStep(step: int)
      modifies this
      ensures State() == Missions.CompleteStep(old(State()), step)
      ensures Valid(old(State())) && 1 <= step <= 3 ==> Valid(State())
    {
      if Valid(State()) && 1 <= step <= 3 {
        CompleteStepPreservesValid(State(), step);
      }
      if currentUser.None? || currentUser.value == "" || currentUser.value !in users {
        return;
      }
      var name := currentUser.value;
      var user := users[name];
      if user.dailyProgress.currentStep == step && step !in user.dailyProgress.completedSteps {
        var progress := user.dailyProgress.(completedSteps := user.dailyProgress.completedSteps + [step],
                                            currentStep := step + 1);
        users := users[name := user.(dailyProgress := progress)];
        currentStep := step + 1;
      }
      assert State() == Missions.CompleteStep(old(State()), step);
    }

    method ClaimDailyReward(now: int, draws: LinkDraws) returns (outcome: ClaimOutcome)
      modifies this
      ensures (State(), outcome) == Missions.ClaimDailyReward(old(State()), now, draws)
      ensures Valid(old(State())) ==> Valid(State())
    {
      if Valid(State()) {
        ClaimPreservesValid(State(), now, draws);
      }
      if currentUser.None? || currentUser.value == "" || currentUser.value !in users {
        return NoActiveUser;
      }
      var name := currentUser.value;
      var user := users[name];
      if user.lastClaim.Some? && user.lastClaim.value != 0 && now - user.lastClaim.value < dailyCooldown {
        return CooldownActive;
      }
      if |user.dailyProgress.completedSteps| != 3 {
        return MissionsIncomplete;
      }
      user := user.(balance := user.balance + 100, keysClaimed := user.keysClaimed + 1, lastClaim := Some(now));
      var links := GenerateDailyLinks(draws);
      user := user.(lastLinksUpdate := Some(now), dailyProgress := DailyProgress(1, [], links));
      users := users[name := user];
      currentStep := 1;
      outcome := RewardClaimed;
      assert user == Missions.ClaimDailyReward(old(State()), now, draws).0.users[name];
      assert State() == Missions.ClaimDailyReward(old(State()), now, draws).0;
    }

    method SaveCurrentUser()
      modifies this`savedUser
      ensures State() == Missions.SaveCurrentUser(old(State()))
    {
      if currentUser.Some? && currentUser.value != "" {
        savedUser := currentUser;
      }
    }

    method SaveUserProgress()
      modifies this`users
      ensures State() == Missions.SaveUserProgress(old(State()))
      ensures Valid(old(State())) ==> users == old(users)
    {
      if currentUser.Some? && currentUser.value != "" && currentUser.value in users {
        var name := currentUser.value;
        var user := users[name];
        users := users[name := user.(dailyProgress := user.dailyProgress.(currentStep := currentStep))];
      }
    }

    /** The countdown `showCooldownTimer` displays for the active user, if any. */
    method ShowCooldownTimer(now: int) returns (shown: Option<Clock>)
      ensures shown.Some? <==> HasActiveUser(State()) && OnCooldown(ActiveUser(State()).lastClaim, now)
      ensures shown.Some? ==> shown == CooldownTimer(ActiveUser(State()).lastClaim, now)
    {
      if currentUser.None? || currentUser.value == "" || currentUser.value !in users {
        return None;
      }
      var user := users[currentUser.value];
      if !(user.lastClaim.Some? && user.lastClaim.value != 0) {
        return None;
      }
      var cooldownEnd := user.lastClaim.value + dailyCooldown;
      var timeLeft := cooldownEnd - now;
      if timeLeft > 0 {
        var hours := timeLeft / (1000 * 60 * 60);
        var minutes := timeLeft % (1000 * 60 * 60) / (1000 * 60);
        var seconds := timeLeft % (1000 * 60) / 1000;
        shown := Some(Clock(hours, minutes, seconds));
      } else {
        shown := None;
      }
      TimerShownIffOnCooldown(user.lastClaim, now);
    }
  }
}
