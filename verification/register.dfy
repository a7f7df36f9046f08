/**
 * The login path of the authentication screen (app/src/main/java/Register.kt).
 *
 * The login button first checks that both text fields are filled in; only then does
 * the login callback look the typed credentials up in the collected user list,
 * `users.filter { username == u && password == p }.map { userId }.firstOrNull()`.
 * A missing id shows "Incorrect Credentials"; a found id opens the home page for it.
 */
module Register {
  import opened Optional

  /** A row of the user table. */
  datatype User = User(userId: int, username: string, password: string)

  /** The filter's predicate: both the user name and the password must be equal. */
  predicate Matches(user: User, username: string, password: string) {
    user.username == username && user.password == password
  }

  /** `users.filter { it.username == username && it.password == password }` */
  function FilterMatching(users: seq<User>, username: string, password: string): (r: seq<User>)
    ensures |r| <= |users|
    ensures forall x :: x in r <==> x in users && Matches(x, username, password)
  {
    if users == [] then []
    else
      (if Matches(users[0], username, password) then [users[0]] else [])
      + FilterMatching(users[1..], username, password)
  }

  /** Filtering keeps list order: the filter of a concatenation concatenates the filtered parts. */
  lemma {:induction false} FilterMatchingAppend(a: seq<User>, b: seq<User>, username: string, password: string)
    ensures FilterMatching(a + b, username, password)
         == FilterMatching(a, username, password) + FilterMatching(b, username, password)
  {
    if a != [] {
      assert (a + b)[0] == a[0];
      assert (a + b)[1..] == a[1..] + b;
      FilterMatchingAppend(a[1..], b, username, password);
    } else {
      assert a + b == b;
    }
  }

  /** `.map { it.userId }` */
  function UserIds(users: seq<User>): (r: seq<int>)
    ensures |r| == |users|
    ensures forall i :: 0 <= i < |users| ==> r[i] == users[i].userId
  {
    if users == [] then [] else [users[0].userId] + UserIds(users[1..])
  }

  /** `.firstOrNull()` */
  function FirstOrNull(ids: seq<int>): (r: Option<int>)
    ensures r.None? <==> ids == []
    ensures r.Some? ==> r.value == ids[0]
  {
    if ids == [] then None else Some(ids[0])
  }

  /**
   * The credential lookup of the login callback. It finds nothing exactly when no
   * user has both fields equal to the input, and a found id is the id of a user
   * whose user name and password both equal the input.
   */
  function Lookup(users: seq<User>, username: string, password: string): (r: Option<int>)
    ensures r.None? <==> forall i :: 0 <= i < |users| ==> !Matches(users[i], username, password)
    ensures r.Some? ==> exists i :: 0 <= i < |users| && Matches(users[i], username, password) && users[i].userId == r.value
  {
    var matching := FilterMatching(users, username, password);
    assert forall i :: 0 <= i < |users| ==> users[i] in users;
    assert matching != [] ==> matching[0] in matching;
    FirstOrNull(UserIds(matching))
  }

  /**
   * First match wins: when users[i] is the earliest user whose credentials match,
   * the lookup yields users[i]'s id, whatever later users also match.
   */
  lemma {:induction false} LookupIsFirstMatch(users: seq<User>, username: string, password: string, i: nat)
    requires i < |users| && Matches(users[i], username, password)
    requires forall j :: 0 <= j < i ==> !Matches(users[j], username, password)
    ensures Lookup(users, username, password) == Some(users[i].userId)
  {
    var filtered := FilterMatching(users, username, password);
    if i == 0 {
      assert filtered == [users[0]] + FilterMatching(users[1..], username, password);
    } else {
      assert filtered == FilterMatching(users[1..], username, password);
      LookupIsFirstMatch(users[1..], username, password, i - 1);
    }
  }

  /** Before the user list has been collected it is empty, and nobody can log in. */
  lemma LookupInEmptyList(username: string, password: string)
    ensures Lookup([], username, password) == None
  {
  }

  /** The guard of the login button: both fields must be non-empty. */
  predicate ReadyToLogin(username: string, password: string) {
    !(username == [] || password == [])
  }

  /** What pressing the login button leads to. */
  datatype LoginOutcome =
    | FieldsRequired              // the error flag "Username and password are required" is raised
    | IncorrectCredentials        // the lookup found no id and the toast is shown
    | LoggedIn(userId: int)       // the home page is opened for this id

  /**
   * The login button's handler with the login callback inlined: an empty field raises
   * the error flag and skips the lookup; otherwise the lookup decides.
   */
  function PressLogin(users: seq<User>, username: string, password: string): (r: LoginOutcome)
    ensures r.FieldsRequired? <==> username == [] || password == []
    ensures r.IncorrectCredentials? <==>
      ReadyToLogin(username, password) && forall i :: 0 <= i < |users| ==> !Matches(users[i], username, password)
    ensures r.LoggedIn? ==>
      ReadyToLogin(username, password) &&
      exists i :: 0 <= i < |users| && Matches(users[i], username, password) && users[i].userId == r.userId
    ensures r.LoggedIn? ==> Lookup(users, username, password) == Some(r.userId)
  {
    if !ReadyToLogin(username, password) then FieldsRequired
    else
      match Lookup(users, username, password)
      case None => IncorrectCredentials
      case Some(id) => LoggedIn(id)
  }

  /**
   * A user stored with an empty user name or an empty password can never be logged
   * in through the button, although the bare lookup would find them.
   */
  lemma {:induction false} EmptyCredentialsNeverLogIn(users: seq<User>, username: string, password: string)
    requires PressLogin(users, username, password).LoggedIn?
    ensures exists i :: 0 <= i < |users| && users[i].username != [] && users[i].password != [] &&
                        users[i].userId == PressLogin(users, username, password).userId
  {
    var r := PressLogin(users, username, password);
    var k :| 0 <= k < |users| && Matches(users[k], username, password) && users[k].userId == r.userId;
    assert users[k].username != [] && users[k].password != [];
  }

  /** The login scenario for a single stored account "alice" / "secret". */
  lemma AliceScenario(id: int)
    ensures PressLogin([User(id, "alice", "secret")], "alice", "secret") == LoggedIn(id)
    ensures PressLogin([User(id, "alice", "secret")], "alice", "Secret") == IncorrectCredentials
    ensures PressLogin([User(id, "alice", "secret")], "alice", "") == FieldsRequired
  {
    var users := [User(id, "alice", "secret")];
    LookupIsFirstMatch(users, "alice", "secret", 0);
    assert !Matches(users[0], "alice", "Secret");
  }
}
