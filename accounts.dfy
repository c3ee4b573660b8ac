/**
 * The in-memory user store of frontend2.py (`st.session_state.users_db`):
 * a dictionary from username to profile record, with registration
 * (`create_user`), login (`check_password`), profile lookup
 * (`get_user_profile`) and the in-place profile update of the "Save Profile"
 * button.
 */
module Accounts {
  import opened Wrappers

  /** A hex digest produced by the password hasher. */
  type Digest = string

  /**
   * A stored profile. `passwordHash` is `None` when the record has no
   * `password_hash` key, as in the default profile of `get_user_profile`.
   */
  datatype Record = Record(passwordHash: Option<Digest>, gmail: string, skills: string, education: string, interests: string)

  /** The record `get_user_profile` returns for an unknown username. */
  const EmptyProfile := Record(None, "", "", "", "")

  /** Why `create_user` refused an account. */
  datatype CreateError = UsernameExists | CredentialsTooShort | SaveFailed

  function Message(e: CreateError): string {
    match e
    case UsernameExists => "Username already exists"
    case CredentialsTooShort => "Username or password too short"
    case SaveFailed => "Failed to save account"
  }

  const CreatedMessage := "Account created successfully!"

  const MinUsernameLength := 3
  const MinPasswordLength := 6

  /** `check_password`: the user exists and its stored hash equals the hash of the given password. */
  function CheckPassword(users: map<string, Record>, hash: string -> Digest, username: string, password: string): (r: bool)
    ensures r ==> username in users && users[username].passwordHash.Some?
  {
    username in users && users[username].passwordHash == Some(hash(password))
  }

  /** `get_user_profile`: the stored record, or the all-empty default for an unknown user. */
  function GetUserProfile(users: map<string, Record>, username: string): (r: Record)
    ensures r.passwordHash.Some? ==> username in users && r == users[username]
  {
    if username in users then users[username] else EmptyProfile
  }

  /**
   * The checks and the insert of `create_user`, before the store is written
   * to disk: the duplicate check comes first, then the length check.
   */
  function Register(users: map<string, Record>, hash: string -> Digest, username: string, password: string,
                    gmail: string, skills: string, education: string, interests: string)
    : (r: Result<map<string, Record>, CreateError>)
    ensures username in users ==> r == Failure(UsernameExists)
    ensures username !in users && (|username| < MinUsernameLength || |password| < MinPasswordLength) ==>
              r == Failure(CredentialsTooShort)
    ensures r.Success? <==> username !in users && |username| >= MinUsernameLength && |password| >= MinPasswordLength
    ensures r.Success? ==> r.value.Keys == users.Keys + {username}
    ensures r.Success? ==> r.value[username] == Record(Some(hash(password)), gmail, skills, education, interests)
    ensures r.Success? ==> forall v :: v in users ==> r.value[v] == users[v]
  {
    if username in users then Failure(UsernameExists)
    else if |username| < MinUsernameLength || |password| < MinPasswordLength then Failure(CredentialsTooShort)
    else Success(users[username := Record(Some(hash(password)), gmail, skills, education, interests)])
  }

  /** The `.update()` of the "Save Profile" button: the four profile fields are overwritten, the hash is kept. */
  function WithProfile(rec: Record, gmail: string, skills: string, education: string, interests: string): (r: Record)
    ensures r.passwordHash == rec.passwordHash
    ensures r.gmail == gmail && r.skills == skills && r.education == education && r.interests == interests
  {
    rec.(gmail := gmail, skills := skills, education := education, interests := interests)
  }

  /** After a successful registration the new user can log in with the password it chose. */
  lemma RegisterThenLogin(users: map<string, Record>, hash: string -> Digest, username: string, password: string,
                          gmail: string, skills: string, education: string, interests: string)
    requires Register(users, hash, username, password, gmail, skills, education, interests).Success?
    ensures CheckPassword(Register(users, hash, username, password, gmail, skills, education, interests).value,
                          hash, username, password)
  {
  }

  /** A password whose hash differs from the chosen one is refused for the new user. */
  lemma RegisterWrongPassword(users: map<string, Record>, hash: string -> Digest, username: string, password: string,
                              other: string, gmail: string, skills: string, education: string, interests: string)
    requires Register(users, hash, username, password, gmail, skills, education, interests).Success?
    requires hash(other) != hash(password)
    ensures !CheckPassword(Register(users, hash, username, password, gmail, skills, education, interests).value,
                           hash, username, other)
  {
  }

  /** Registering one user changes no other user's login. */
  lemma RegisterKeepsOtherLogins(users: map<string, Record>, hash: string -> Digest, username: string, password: string,
                                 gmail: string, skills: string, education: string, interests: string,
                                 v: string, p: string)
    requires Register(users, hash, username, password, gmail, skills, education, interests).Success?
    requires v != username
    ensures CheckPassword(Register(users, hash, username, password, gmail, skills, education, interests).value, hash, v, p)
            == CheckPassword(users, hash, v, p)
  {
  }

  /** The prefilled profile of a newly registered user is what it registered with. */
  lemma RegisterThenProfile(users: map<string, Record>, hash: string -> Digest, username: string, password: string,
                            gmail: string, skills: string, education: string, interests: string)
    requires Register(users, hash, username, password, gmail, skills, education, interests).Success?
    ensures var p := GetUserProfile(Register(users, hash, username, password, gmail, skills, education, interests).value, username);
            p.gmail == gmail && p.skills == skills && p.education == education && p.interests == interests
  {
  }

  /** An unknown user gets the all-empty profile and cannot log in with any password. */
  lemma UnknownUser(users: map<string, Record>, hash: string -> Digest, username: string, password: string)
    requires username !in users
    ensures GetUserProfile(users, username) == EmptyProfile
    ensures !CheckPassword(users, hash, username, password)
  {
  }

  /** Deleting the key that was just inserted gives back the store as it was: the rollback of `create_user`. */
  lemma RollbackRestores(users: map<string, Record>, username: string, rec: Record)
    requires username !in users
    ensures users[username := rec] - {username} == users
  {
  }

  /** Saving a profile changes no login: the hash of that user and every other record are kept. */
  lemma ProfileUpdateKeepsLogins(users: map<string, Record>, hash: string -> Digest, username: string,
                                 gmail: string, skills: string, education: string, interests: string,
                                 v: string, p: string)
    requires username in users
    ensures CheckPassword(users[username := WithProfile(users[username], gmail, skills, education, interests)], hash, v, p)
            == CheckPassword(users, hash, v, p)
  {
  }

  /** After a profile save, the next prefill shows the saved fields; other users' profiles are unchanged. */
  lemma ProfileUpdateThenProfile(users: map<string, Record>, username: string,
                                 gmail: string, skills: string, education: string, interests: string, v: string)
    requires username in users
    ensures var after := users[username := WithProfile(users[username], gmail, skills, education, interests)];
            && GetUserProfile(after, username) == Record(users[username].passwordHash, gmail, skills, education, interests)
            && (v != username ==> GetUserProfile(after, v) == GetUserProfile(users, v))
  {
  }

  /**
   * The user store: the dictionary held in the session, the hasher, and the
   * store as this session last wrote it to `users.json`.
   */
  class UserStore {
    /** `hash_password`: deterministic, otherwise unknown. */
    const hash: string -> Digest
    var users: map<string, Record>
    /** `users.json` as this session last wrote it (at construction: as loaded); unknown after a failed write. */
    var file: map<string, Record>

    /** A store freshly loaded from a file holding `loaded`. */
    constructor (hash: string -> Digest, loaded: map<string, Record>)
      ensures this.hash == hash && users == loaded && file == loaded
    {
      this.hash := hash;
      users := loaded;
      file := loaded;
    }

    /**
     * `save_users_to_file()`: writes the whole store. The write may fail with
     * an I/O error, the result says whether it succeeded; after a failure the
     * file's contents are unknown (opening it for writing truncates it).
     */
    method SaveUsersToFile() returns (ok: bool)
      modifies this`file
      ensures ok ==> file == users
    {
      ok := *;
      if ok {
        file := users;
      } else {
        file := *;
      }
    }

    /** `create_user`. */
    method CreateUser(username: string, password: string, gmail: string, skills: string, education: string, interests: string)
      returns (ok: bool, msg: string)
      modifies this`users, this`file
      ensures var reg := Register(old(users), hash, username, password, gmail, skills, education, interests);
              && (reg.Failure? ==> !ok && msg == Message(reg.error) && users == old(users) && file == old(file))
              && (reg.Success? && ok ==> users == reg.value && file == users && msg == CreatedMessage)
              && (reg.Success? && !ok ==> users == old(users) && msg == Message(SaveFailed))
      ensures ok ==> CheckPassword(users, hash, username, password)
      ensures !ok ==> users == old(users)
    {
      if username in users {
        return false, Message(UsernameExists);
      }
      if |username| < MinUsernameLength || |password| < MinPasswordLength {
        return false, Message(CredentialsTooShort);
      }
      var profile := Record(Some(hash(password)), gmail, skills, education, interests);
      users := users[username := profile];
      var saved := SaveUsersToFile();
      if saved {
        return true, CreatedMessage;
      } else {
        RollbackRestores(old(users), username, profile);
        users := users - {username};
        return false, Message(SaveFailed);
      }
    }

    /** The in-place `.update()` of the current user's record with the four profile fields. */
    method UpdateProfile(username: string, gmail: string, skills: string, education: string, interests: string)
      requires username in users
      modifies this`users
      ensures users == old(users)[username := WithProfile(old(users)[username], gmail, skills, education, interests)]
    {
      users := users[username := WithProfile(users[username], gmail, skills, education, interests)];
    }
  }
}
