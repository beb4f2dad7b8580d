/**
 * screens/LoginRoute/NewAccountScreen.js: the live status lines under the three
 * inputs of the create-account form, and the create button.
 *
 * The screen asks for 4 characters where the store enforces 3; the form's
 * statuses are advice only, since the button submits whatever was typed.
 */
module NewAccountScreen {
  import opened Wrappers
  import opened DatabaseApi
  import opened AppState

  const MinFormLength := 4

  const EnterUsername := "Enter a username"
  const UsernameTooShort := "Username should be at least 4 characters long"
  const UsernameTaken := "Username is already taken"
  const UsernameAvailable := "Username is available"
  const EnterPassword := "Enter a password"
  const PasswordsTooShort := "Passwords should be at least 4 characters long"
  const PasswordsLongEnough := "Passwords are at least 4 characters long"
  const PasswordsDiffer := "Passwords do not match"
  const PasswordsMatch := "Passwords match"

  /** The username line for a typed name, `taken` being the store's answer (asked only for names of 4 or more). */
  function UsernameStatus(name: string, taken: bool): string
  {
    if |name| == 0 then EnterUsername
    else if |name| < MinFormLength then UsernameTooShort
    else if taken then UsernameTaken
    else UsernameAvailable
  }

  /** The length line once a password has been typed: both passwords must reach 4 characters. */
  function LengthStatus(password: string, other: string): string
  {
    if |password| < MinFormLength || |other| < MinFormLength then PasswordsTooShort else PasswordsLongEnough
  }

  /** Length line after `onPassword1Input(password)`; `previous` is the first password as it was before this keystroke. */
  function Password1LengthStatus(password: string, previous: string): string
  {
    if |password| == 0 then EnterPassword else LengthStatus(password, previous)
  }

  /** Match line after `onPassword1Input(password)`: compared with the previous first password, not with the second. */
  function Password1MatchStatus(password: string, previous: string): string
  {
    if password != previous then PasswordsDiffer else PasswordsMatch
  }

  /** Match line after `onPassword2Input(password)`: empty for an empty second password. */
  function Password2MatchStatus(password: string, password1: string): string
  {
    if |password| == 0 then "" else if password != password1 then PasswordsDiffer else PasswordsMatch
  }

  /** Each username line, and exactly when it is shown. */
  lemma UsernameStatusCases(name: string, taken: bool)
    ensures UsernameStatus(name, taken) == EnterUsername <==> name == ""
    ensures UsernameStatus(name, taken) == UsernameTooShort <==> 0 < |name| < MinFormLength
    ensures UsernameStatus(name, taken) == UsernameTaken <==> |name| >= MinFormLength && taken
    ensures UsernameStatus(name, taken) == UsernameAvailable <==> |name| >= MinFormLength && !taken
  {
  }

  /** The length line reports success exactly when both typed passwords have 4 characters or more. */
  lemma LengthStatusCases(password: string, other: string)
    ensures LengthStatus(password, other) == PasswordsLongEnough <==> |password| >= MinFormLength && |other| >= MinFormLength
    ensures LengthStatus(password, other) == PasswordsTooShort <==> |password| < MinFormLength || |other| < MinFormLength
    ensures Password1LengthStatus(password, other) == EnterPassword <==> password == ""
  {
  }

  /** The second input's match line, and exactly when each text is shown. */
  lemma Password2MatchCases(password: string, password1: string)
    ensures Password2MatchStatus(password, password1) == "" <==> password == ""
    ensures Password2MatchStatus(password, password1) == PasswordsMatch <==> password != "" && password == password1
    ensures Password2MatchStatus(password, password1) == PasswordsDiffer <==> password != "" && password != password1
  {
  }

  /** As written, the first input reports a match whenever the same text is typed into it twice in a row, whatever the second input holds. */
  lemma Password1MatchIgnoresSecond(password: string)
    ensures Password1MatchStatus(password, password) == PasswordsMatch
    ensures forall previous :: Password1MatchStatus(password, previous) == PasswordsMatch <==> previous == password
  {
  }

  /**
   * A name the form calls available passes the store's checks on the name: it is
   * long enough for the store's 3-character minimum and no account holds it.
   */
  lemma AvailableNameAccepted(users: seq<UserRow>, name: string)
    requires UsernameStatus(name, NameTaken(users, name)) == UsernameAvailable
    ensures |name| >= MinCredentialLength && !NameTaken(users, name)
  {
  }

  class NewAccountForm {
    var username: string
    var password1: string
    var password2: string
    var usernameStatus: string
    var pwStatusLength: string
    var pwStatusMatch: string

    constructor ()
      ensures username == "" && password1 == "" && password2 == ""
      ensures usernameStatus == EnterUsername && pwStatusLength == EnterPassword && pwStatusMatch == ""
    {
      username := "";
      password1 := "";
      password2 := "";
      usernameStatus := EnterUsername;
      pwStatusLength := EnterPassword;
      pwStatusMatch := "";
    }

    /** `onUsernameInput(name)`: the store is consulted only for names of 4 characters or more. */
    method OnUsernameInput(db: Database, name: string)
      modifies this
      ensures username == name
      ensures usernameStatus == UsernameStatus(name, NameTaken(db.users, name))
      ensures password1 == old(password1) && password2 == old(password2)
      ensures pwStatusLength == old(pwStatusLength) && pwStatusMatch == old(pwStatusMatch)
    {
      username := name;
      if |name| == 0 {
        usernameStatus := EnterUsername;
      } else if |name| < MinFormLength {
        usernameStatus := UsernameTooShort;
      } else {
        var taken := db.DoesUserIDExist(name);
        usernameStatus := if taken then UsernameTaken else UsernameAvailable;
      }
    }

    /** `onPassword1Input(password)`: both lines are computed against the first password held before this keystroke. */
    method OnPassword1Input(password: string)
      modifies this
      ensures password1 == password
      ensures pwStatusLength == Password1LengthStatus(password, old(password1))
      ensures pwStatusMatch == Password1MatchStatus(password, old(password1))
      ensures username == old(username) && password2 == old(password2) && usernameStatus == old(usernameStatus)
    {
      var previous := password1;
      password1 := password;
      if |password| == 0 {
        pwStatusLength := EnterPassword;
      } else if |password| < MinFormLength || |previous| < MinFormLength {
        pwStatusLength := PasswordsTooShort;
      } else {
        pwStatusLength := PasswordsLongEnough;
      }
      if password != previous {
        pwStatusMatch := PasswordsDiffer;
      } else {
        pwStatusMatch := PasswordsMatch;
      }
    }

    /** `onPassword2Input(password)`: both lines are computed against the current first password. */
    method OnPassword2Input(password: string)
      modifies this
      ensures password2 == password
      ensures pwStatusLength == LengthStatus(password, password1)
      ensures pwStatusMatch == Password2MatchStatus(password, password1)
      ensures username == old(username) && password1 == old(password1) && usernameStatus == old(usernameStatus)
    {
      password2 := password;
      if |password| < MinFormLength || |password1| < MinFormLength {
        pwStatusLength := PasswordsTooShort;
      } else {
        pwStatusLength := PasswordsLongEnough;
      }
      if |password| == 0 {
        pwStatusMatch := "";
      } else if password != password1 {
        pwStatusMatch := PasswordsDiffer;
      } else {
        pwStatusMatch := PasswordsMatch;
      }
    }

    /**
     * `onCreateAccPress()`: submits the username and the first password (the
     * second is not consulted); on success the session switches to the new
     * account, on failure the store's message replaces the username line and the
     * password lines are cleared.
     */
    method OnCreateAccPress(db: Database, session: Session) returns (created: bool)
      requires db.Valid()
      modifies this, db, session
      ensures db.Valid()
      ensures created <==> |old(username)| >= MinCredentialLength && |old(password1)| >= MinCredentialLength
                           && !NameTaken(old(db.users), old(username))
      ensures created ==> db.users == old(db.users) + [UserRow(old(db.nextUserID), username, password1)]
                          && db.nextUserID == old(db.nextUserID) + 1
                          && session.userID == old(db.nextUserID)
                          && usernameStatus == old(usernameStatus)
                          && pwStatusLength == old(pwStatusLength) && pwStatusMatch == old(pwStatusMatch)
      ensures created && session.userID != old(session.userID) ==>
        (session.favorites, session.watchLater) ==
          Reloaded(RowsOf(db.userMovies, session.userID), old(session.favorites), old(session.watchLater))
      ensures created && session.userID == old(session.userID) ==>
        session.favorites == old(session.favorites) && session.watchLater == old(session.watchLater)
      ensures !created ==> db.users == old(db.users) && db.nextUserID == old(db.nextUserID)
                           && session.userID == old(session.userID)
                           && session.favorites == old(session.favorites) && session.watchLater == old(session.watchLater)
                           && usernameStatus == Message(
                                if |old(username)| < MinCredentialLength || |old(password1)| < MinCredentialLength
                                then CredentialsTooShort else UsernameExists)
                           && pwStatusLength == "" && pwStatusMatch == ""
      ensures db.userMovies == old(db.userMovies) && db.nextUserMovieID == old(db.nextUserMovieID)
      ensures username == old(username) && password1 == old(password1) && password2 == old(password2)
    {
      var r := db.CreateNewAccount(username, password1);
      if r.Ok? {
        session.SetUserID(db, r.value);
        created := true;
      } else {
        usernameStatus := Message(r.error);
        pwStatusLength := "";
        pwStatusMatch := "";
        created := false;
      }
    }
  }
}
