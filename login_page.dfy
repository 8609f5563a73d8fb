/**
 * The decision `LoginPage.attempt_login` makes (animal_logger/src/frames/login_page.py),
 * stripped of widgets: the submitted credentials go into the environment, the
 * configuration is read, the credential table `credentials.login_app` is fetched, and
 * the page shows the fetch's error message, tears the window down, or does nothing.
 */
module Login {
  import opened Common
  import opened Configuration
  import opened Database

  /** One row of the credential table. */
  datatype Credential = Credential(username: string, password: string)

  type CredentialTable = seq<Credential>

  /** A widget of the window, by identity. */
  type Widget = nat

  /** The configuration key holding the database URL. */
  const DbUrlKey: string := "db_url"

  /** What the page does once the table has been fetched. */
  datatype LoginAction =
    | ShowError(message: string)  // a new red label with the fetch's message
    | TearDown                    // every child widget of the window is destroyed
    | NoAction                    // no matching user: nothing happens

  /** The exceptions that escape `attempt_login`. */
  datatype LoginError =
    | ConfigNotLoaded  // raised by `Config.get_info`
    | NoDbUrl          // KeyError on `['db_url']`
    | FetchRaised      // an exception `get_table` does not catch

  /** `len(login_table.loc[(username == u) & (password == p)].index)`: rows matching both, exactly. */
  function MatchCount(table: CredentialTable, u: string, p: string): nat
  {
    if table == [] then 0
    else
      var n := |table| - 1;
      MatchCount(table[..n], u, p) + (if table[n].username == u && table[n].password == p then 1 else 0)
  }

  /** Some row matches exactly when the count of matching rows is positive. */
  lemma {:induction false} MatchCountPositive(table: CredentialTable, u: string, p: string)
    ensures MatchCount(table, u, p) > 0 <==> exists i :: 0 <= i < |table| && table[i] == Credential(u, p)
  {
    if table != [] {
      var n := |table| - 1;
      MatchCountPositive(table[..n], u, p);
      if exists i :: 0 <= i < n && table[..n][i] == Credential(u, p) {
        var i :| 0 <= i < n && table[..n][i] == Credential(u, p);
        assert table[i] == Credential(u, p);
      }
      if exists i :: 0 <= i < |table| && table[i] == Credential(u, p) {
        var i :| 0 <= i < |table| && table[i] == Credential(u, p);
        if i < n {
          assert table[..n][i] == Credential(u, p);
        }
      }
    }
  }

  /** The branch `attempt_login` takes on what `get_table` returned. */
  function Decide(read: ReadOutcome<CredentialTable>, u: string, p: string): LoginAction
    requires !read.UncaughtFailure?
  {
    var fetched := GetTable(read);
    if fetched.message.None? || fetched.message.value == "" then
      if MatchCount(fetched.table.value, u, p) > 0 then TearDown else NoAction
    else
      ShowError(fetched.message.value)
  }

  /** The whole of `attempt_login` on the stored configuration and the environment after the writes. */
  function LoginOutcome(stored: Option<ConfigDict>, env: Environment,
                        fetch: string -> ReadOutcome<CredentialTable>, u: string, p: string): Result<LoginAction, LoginError>
  {
    if !IsLoaded(stored) then Failure(ConfigNotLoaded)
    else
      var info := WithCredentials(stored.value, env);
      if DbUrlKey !in info then Failure(NoDbUrl)
      else
        var read := fetch(info[DbUrlKey]);
        if read.UncaughtFailure? then Failure(FetchRaised) else Success(Decide(read, u, p))
  }

  /** The page shows an error exactly when the fetch returned a message, and it shows exactly that message. */
  lemma ShowsFetchMessage(read: ReadOutcome<CredentialTable>, u: string, p: string, m: string)
    requires !read.UncaughtFailure?
    ensures Decide(read, u, p) == ShowError(m) <==> GetTable(read).message == Some(m)
    ensures Decide(read, u, p).ShowError? <==> !read.Read?
  {
  }

  /** The window is torn down exactly when the table was read and some row matches both fields exactly. */
  lemma TearDownIffMatch(read: ReadOutcome<CredentialTable>, u: string, p: string)
    requires !read.UncaughtFailure?
    ensures Decide(read, u, p) == TearDown <==>
              read.Read? && exists i :: 0 <= i < |read.table| && read.table[i] == Credential(u, p)
  {
    if read.Read? {
      MatchCountPositive(read.table, u, p);
    }
  }

  /** Nothing happens exactly when the table was read and no row matches: no teardown and no message. */
  lemma NoActionIffNoMatch(read: ReadOutcome<CredentialTable>, u: string, p: string)
    requires !read.UncaughtFailure?
    ensures Decide(read, u, p) == NoAction <==>
              read.Read? && forall i :: 0 <= i < |read.table| ==> read.table[i] != Credential(u, p)
  {
    if read.Read? {
      MatchCountPositive(read.table, u, p);
    }
  }

  /** A permission failure shows "You have no rights to the database." and does not log in. */
  lemma PermissionDeniedExample(u: string, p: string)
    ensures Decide(ProgrammingFailure, u, p) == ShowError("You have no rights to the database.")
  {
  }

  /** Usernames are compared exactly: "Alice" does not match a stored "alice". */
  lemma CaseSensitiveExample()
    ensures Decide(Read([Credential("alice", "secret")]), "Alice", "secret") == NoAction
  {
    assert [Credential("alice", "secret")][..0] == [];
  }

  /** Texts of the error labels after the earlier one (if any) is blanked. */
  function Cleared(labels: seq<string>): seq<string>
  {
    if labels == [] then [] else labels[|labels| - 1 := ""]
  }

  class LoginPage {
    /** The process environment `os.environ`. */
    var env: Environment
    /** Texts of the error labels placed so far; the last one is `self.error_message`. */
    var errorLabels: seq<string>
    /** The window's child widgets. */
    var children: seq<Widget>

    constructor (env: Environment, children: seq<Widget>)
      ensures this.env == env && errorLabels == [] && this.children == children
    {
      this.env := env;
      errorLabels := [];
      this.children := children;
    }

    /**
     * `attempt_login`: write the submitted credentials to the environment, read the
     * configuration and the credential table, blank the previous error label, then show
     * the fetch's message, tear the window down on a matching row, or do nothing.
     * `fetch(url)` is what reading the table at that database URL gives.
     */
    method AttemptLogin(username: string, password: string, config: Config,
                        fetch: string -> ReadOutcome<CredentialTable>)
      returns (result: Result<LoginAction, LoginError>)
      modifies this, config
      ensures env == old(env)[UserVariable := username][PasswordVariable := password]
      ensures config.configDict == if IsLoaded(old(config.configDict))
                                   then Some(WithCredentials(old(config.configDict).value, env))
                                   else old(config.configDict)
      ensures result == LoginOutcome(old(config.configDict), env, fetch, username, password)
      ensures result.Failure? ==> errorLabels == old(errorLabels) && children == old(children)
      ensures result.Success? ==>
                errorLabels == Cleared(old(errorLabels)) + (if result.value.ShowError? then [result.value.message] else [])
      ensures result.Success? ==> children == if result.value == TearDown then [] else old(children)
    {
      env := env[UserVariable := username];
      env := env[PasswordVariable := password];
      var info := config.GetInfo(env);
      if info.Failure? {
        return Failure(ConfigNotLoaded);
      }
      if DbUrlKey !in info.value {
        return Failure(NoDbUrl);
      }
      var read := fetch(info.value[DbUrlKey]);
      var fetched := GetTable(read);
      if fetched.Raised? {
        return Failure(FetchRaised);
      }
      if errorLabels != [] {
        errorLabels := errorLabels[|errorLabels| - 1 := ""];
      }
      if fetched.message.None? || fetched.message.value == "" {
        if MatchCount(fetched.table.value, username, password) > 0 {
          var snapshot := children;
          for i := 0 to |snapshot|
            invariant children == snapshot[i..]
            modifies this`children
          {
            // destroy snapshot[i], the first child still in the window
            children := children[1..];
          }
          result := Success(TearDown);
        } else {
          result := Success(NoAction);
        }
      } else {
        errorLabels := errorLabels + [fetched.message.value];
        result := Success(ShowError(fetched.message.value));
      }
    }
  }
}
