/** Two places where the source does what its authors evidently did not intend,
    modelled exactly as written so that the discrepancy can be exhibited. The
    rest of the model uses the corrected definitions in Missions. */
module AsWritten {
  import opened Wrappers
  import opened JsText
  import opened Base64
  import opened Generators
  import opened Missions

  /** Property names every plain JavaScript object inherits from Object.prototype,
      and so also the `users` object, whether created as `{}` or by `JSON.parse`. */
  const InheritedKeys: set<string> := {
    "constructor", "__proto__", "hasOwnProperty", "isPrototypeOf", "propertyIsEnumerable",
    "toLocaleString", "toString", "valueOf",
    "__defineGetter__", "__defineSetter__", "__lookupGetter__", "__lookupSetter__"
  }

  /** `this.users[username]` is truthy for a stored name and for an inherited one. */
  predicate LookupTruthy(users: map<string, User>, name: string)
  {
    name in users || name in InheritedKeys
  }

  /** `register` as written: the "name taken" test is a truthiness test of the lookup. */
  function RegisterAsWritten(users: map<string, User>, name: string, password: string, draws: LinkDraws)
    : (r: (map<string, User>, RegisterOutcome))
    ensures LookupTruthy(users, name) ==> r.1 == NameTaken
    ensures r.1 == Created <==> CanRegister(users, name, password) && name !in InheritedKeys
    ensures r.1 != Created ==> r.0 == users
  {
    if LookupTruthy(users, name) then (users, NameTaken) else Register(users, name, password, draws)
  }

  /** The two agree on every name that is not inherited. */
  lemma RegisterAsWrittenAgrees(users: map<string, User>, name: string, password: string, draws: LinkDraws)
    requires name !in InheritedKeys
    ensures RegisterAsWritten(users, name, password, draws) == Register(users, name, password, draws)
  {
  }

  /** On a store with no accounts at all, "toString" is reported as taken. */
  lemma InheritedNameReportedTaken(draws: LinkDraws)
    ensures RegisterAsWritten(map[], "toString", "secret", draws).1 == NameTaken
    ensures Register(map[], "toString", "secret", draws).1 == Created
  {
    assert Latin1("secret") by {
      assert forall i :: 0 <= i < 6 ==> "secret"[i] in "acerst";
    }
  }

  /** `login` as written: the progress is loaded before `saveCurrentUser` writes
      the session key, so `loadUserProgress` reads the key of the previous session.
      An inherited name passes the first test and fails the comparison (after
      `btoa`, which may throw). */
  function LoginAsWritten(s: Session, name: string, password: string, now: int, draws: LinkDraws)
    : (r: (Session, LoginOutcome))
    ensures r.1 == Welcome <==> name in s.users && Btoa(password) == Some(s.users[name].password)
    ensures r.1 == LoginEncodingError <==> (name in s.users || name in InheritedKeys) && !Latin1(password)
    ensures r.1 != Welcome ==> r.0 == s
    ensures r.1 == Welcome && !(Named(s.savedUser) && s.savedUser.value in s.users) ==>
              r.0.users == s.users && r.0.currentStep == s.currentStep && r.0.currentUser == Some(name)
              && (name != "" ==> r.0.savedUser == Some(name))
  {
    if name !in s.users then
      if name in InheritedKeys && !Latin1(password) then (s, LoginEncodingError) else (s, WrongCredentials)
    else match Btoa(password)
      case None => (s, LoginEncodingError)
      case Some(encoded) =>
        if s.users[name].password != encoded then (s, WrongCredentials)
        else (SaveCurrentUser(LoadUserProgress(s.(currentUser := Some(name)), now, draws).0), Welcome)
  }

  /** After one user logs out, the next to log in keeps the previous user's
      mirrored step; the next logout writes it into the new user's record, whose
      missions are then no longer in sequence. The corrected Login keeps the
      invariant on the same inputs. */
  lemma LoginAsWrittenKeepsStaleStep(s: Session, other: string, password: string, now: int, draws: LinkDraws)
    requires Valid(s) && HasActiveUser(s)
    requires other in s.users && other != s.currentUser.value
    requires Btoa(password) == Some(s.users[other].password)
    requires s.users[other].dailyProgress.currentStep != s.currentStep
    ensures var r := LoginAsWritten(Logout(s), other, password, now, draws);
            r.1 == Welcome
            && r.0.currentStep == s.currentStep
            && !Valid(r.0)
            && !SequentialProgress(Logout(r.0).users[other].dailyProgress)
    ensures Valid(Login(Logout(s), other, password, now, draws).0)
  {
    LogoutPreservesValid(s);
    var s0 := Logout(s);
    var r := LoginAsWritten(s0, other, password, now, draws);
    assert r.0 == s0.(currentUser := Some(other), savedUser := Some(other));
    assert Utf16Length(other) >= 3;
    var p := Logout(r.0).users[other].dailyProgress;
    assert |p.completedSteps| == s.users[other].dailyProgress.currentStep - 1;
    LoginPreservesValid(s0, other, password, now, draws);
  }
}
