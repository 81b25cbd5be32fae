/**
 * The authentication, profile and follow handlers of the `auth` blueprint,
 * over an in-memory store: the `user` table as a map from id to record, the
 * `follow` table as a sequence of rows, and the client's session.
 */
module Auth {
  import opened Wrappers
  import opened Validation
  import opened SocialGraph

  /** A row of the `user` table; the columns the schema may leave NULL are options. */
  datatype User = User(
    username: string,
    password: string,
    email: string,
    nickname: Option<string>,
    website: Option<string>,
    about: Option<string>,
    pfp: Option<string>,
    userType: Option<string>,
    lastLogin: Option<int>)

  /** The endpoints the handlers redirect to. */
  datatype Endpoint = AuthLogin | AuthAdmin | BlogIndex | Index | BlogProfile(id: nat)

  /** The templates the handlers render. */
  datatype View =
    | RegisterForm
    | LoginForm
    | EditForm
    | FollowingList(follows: seq<Member<User>>)
    | FollowersList(followers: seq<Member<User>>)

  /** A handler's answer, with the message it flashes, if any. */
  datatype Response = Redirect(to: Endpoint, flash: Option<string>) | Render(view: View, flash: Option<string>)

  /** The part of an update request that carries the avatar. */
  datatype Upload = NoFilePart | File(filename: string)

  /** Where saved avatars are served from. */
  const PfpPrefix: string := "/static/upload/pfp/"

  /** The answer `login_required` gives to an anonymous request. */
  const ToLogin: Response := Redirect(AuthLogin, None)

  class Store {
    /** The `user` table, by id. */
    var users: map<nat, User>
    /** The `follow` table, in insertion order. */
    var follow: seq<Edge>
    /** The `user_id` entry of the client's session. */
    var session: Option<nat>
    /** The id the store gives the next registered user. */
    var nextId: nat

    /**
     * Ids are below the next one to be issued, usernames are unique, and the
     * follow table holds no edge twice.
     */
    ghost predicate Valid()
      reads this
    {
      && (forall id :: id in users ==> id < nextId)
      && (forall a, b :: a in users && b in users && users[a].username == users[b].username ==> a == b)
      && NoDup(follow)
    }

    constructor ()
      ensures Valid()
      ensures users == map[] && follow == [] && session == None
    {
      users := map[];
      follow := [];
      session := None;
      nextId := 0;
    }

    /** Whether some user already has this username. */
    predicate UsernameTaken(username: string)
      reads this
    {
      exists id :: id in users && users[id].username == username
    }

    /**
     * `load_logged_in_user`: the id of the logged-in user, or None when the
     * session holds no id or an id with no user behind it.
     */
    function CurrentUser(): (r: Option<nat>)
      reads this
      ensures r.Some? <==> session.Some? && session.value in users
      ensures r.Some? ==> r == session
    {
      if session.Some? && session.value in users then session else None
    }

    /**
     * The check `login_required` makes before the wrapped view: an anonymous
     * request is answered with a redirect to the login page.
     */
    method LoginRequired() returns (denied: Option<Response>)
      ensures denied.Some? <==> CurrentUser().None?
      ensures denied.Some? ==> denied.value == ToLogin
    {
      if CurrentUser().None? {
        return Some(ToLogin);
      }
      return None;
    }

    /**
     * `register` (POST). The checks run in order: username, password, email,
     * then whether the username is taken; the first that fails is reported
     * and the table is left as it was. Otherwise one user is inserted with
     * the given password hash.
     */
    method Register(username: string, password: string, email: Option<string>, passwordHash: string)
      returns (resp: Response)
      requires Valid()
      modifies this
      ensures Valid()
      ensures follow == old(follow) && session == old(session)
      ensures username == "" ==>
        resp == Render(RegisterForm, Some("Username is required.")) && unchanged(this)
      ensures username != "" && password == "" ==>
        resp == Render(RegisterForm, Some("Password is required.")) && unchanged(this)
      ensures username != "" && password != "" && (email == None || email == Some("")) ==>
        resp == Render(RegisterForm, Some("Email is required.")) && unchanged(this)
      ensures username != "" && password != "" && email.Some? && email.value != "" && old(UsernameTaken(username)) ==>
        resp == Render(RegisterForm, Some("User " + username + " is already registered.")) && unchanged(this)
      ensures username != "" && password != "" && email.Some? && email.value != "" && !old(UsernameTaken(username)) ==>
        && resp == Redirect(AuthLogin, None)
        && old(nextId) !in old(users)
        && |users| == |old(users)| + 1
        && users == old(users)[old(nextId) := User(username, passwordHash, email.value, None, None, None, None, None, None)]
        && UsernameTaken(username)
    {
      var error: Option<string> := None;
      if username == "" {
        error := Some("Username is required.");
      } else if password == "" {
        error := Some("Password is required.");
      } else if email == None || email == Some("") {
        error := Some("Email is required.");
      } else if UsernameTaken(username) {
        error := Some("User " + username + " is already registered.");
      }
      if error == None {
        var id := nextId;
        users := users[id := User(username, passwordHash, email.value, None, None, None, None, None, None)];
        nextId := nextId + 1;
        assert users[id].username == username;
        return Redirect(AuthLogin, None);
      }
      return Render(RegisterForm, error);
    }

    /**
     * `login` (POST). An unknown username or a password that `check` rejects
     * is reported and changes nothing. On success the session holds exactly
     * that user's id, only that user's `last_login` becomes `now`, and an
     * admin is sent to the admin page.
     */
    method Login(username: string, password: string, now: int, check: (string, string) -> bool)
      returns (resp: Response)
      requires Valid()
      modifies this
      ensures Valid()
      ensures follow == old(follow) && nextId == old(nextId)
      ensures !old(UsernameTaken(username)) ==>
        resp == Render(LoginForm, Some("Incorrect username.")) && unchanged(this)
      ensures forall id :: id in old(users) && old(users)[id].username == username && !check(old(users)[id].password, password) ==>
        resp == Render(LoginForm, Some("Incorrect password.")) && unchanged(this)
      ensures forall id :: id in old(users) && old(users)[id].username == username && check(old(users)[id].password, password) ==>
        && session == Some(id)
        && users == old(users)[id := old(users)[id].(lastLogin := Some(now))]
        && resp == Redirect(if old(users)[id].userType == Some("admin") then AuthAdmin else BlogIndex, None)
    {
      if !UsernameTaken(username) {
        return Render(LoginForm, Some("Incorrect username."));
      }
      var id :| id in users && users[id].username == username;
      var user := users[id];
      if !check(user.password, password) {
        return Render(LoginForm, Some("Incorrect password."));
      }
      session := Some(id);
      users := users[id := user.(lastLogin := Some(now))];
      if user.userType == Some("admin") {
        return Redirect(AuthAdmin, None);
      }
      return Redirect(BlogIndex, None);
    }

    /** `logout`: the session is cleared and the client goes to the index. */
    method Logout() returns (resp: Response)
      requires Valid()
      modifies this`session
      ensures Valid()
      ensures session == None && CurrentUser() == None
      ensures resp == Redirect(Index, None)
    {
      session := None;
      return Redirect(Index, None);
    }

    /**
     * `update` (POST), behind `login_required`. A file part with an empty name
     * is refused and changes nothing. Otherwise the logged-in user's
     * nickname, about text and normalised website are stored, and the
     * avatar becomes `PfpPrefix + storedName` only when an allowed file was
     * supplied; `storedName` is the name the upload was saved under.
     */
    method Update(nickname: string, aboutme: string, website: string, upload: Upload, storedName: string)
      returns (resp: Response)
      requires Valid()
      modifies this
      ensures Valid()
      ensures follow == old(follow) && session == old(session) && nextId == old(nextId)
      ensures old(CurrentUser()).None? ==> resp == ToLogin && unchanged(this)
      ensures old(CurrentUser()).Some? && upload == File("") ==>
        resp == Render(EditForm, Some("No selected file")) && unchanged(this)
      ensures old(CurrentUser()).Some? && upload != File("") ==>
        var id := old(session).value;
        var was := old(users)[id];
        && users == old(users)[id := was.(
             nickname := Some(nickname),
             website := Some(NormaliseWebsite(website)),
             about := Some(aboutme),
             pfp := if upload.File? && AllowedFile(upload.filename) then Some(PfpPrefix + storedName) else was.pfp)]
        && resp == Redirect(Index, if upload == NoFilePart then Some("No file part") else None)
    {
      var denied := LoginRequired();
      if denied.Some? {
        return denied.value;
      }
      var id := session.value;
      var site := NormaliseWebsite(website);
      var pfp := users[id].pfp;
      var notice: Option<string> := None;
      match upload {
        case NoFilePart =>
          notice := Some("No file part");
        case File(filename) =>
          if filename == "" {
            return Render(EditForm, Some("No selected file"));
          }
          if AllowedFile(filename) {
            pfp := Some(PfpPrefix + storedName);
          }
      }
      users := users[id := users[id].(nickname := Some(nickname), website := Some(site), about := Some(aboutme), pfp := pfp)];
      return Redirect(Index, notice);
    }

    /**
     * `follow` (POST), behind `login_required`: the row (session user, id) is
     * inserted unless it is already in the table.
     */
    method Follow(id: nat) returns (resp: Response)
      requires Valid()
      modifies this`follow
      ensures Valid()
      ensures old(CurrentUser()).None? ==> resp == ToLogin && follow == old(follow)
      ensures old(CurrentUser()).Some? ==>
        && follow == FollowRows(old(follow), Edge(session.value, id))
        && resp == Redirect(BlogProfile(id), None)
    {
      var denied := LoginRequired();
      if denied.Some? {
        return denied.value;
      }
      var e := Edge(session.value, id);
      if e !in follow {
        follow := follow + [e];
      }
      return Redirect(BlogProfile(id), None);
    }

    /**
     * `unfollow` (POST), behind `login_required`: every row (session user, id)
     * is deleted when one exists.
     */
    method Unfollow(id: nat) returns (resp: Response)
      requires Valid()
      modifies this`follow
      ensures Valid()
      ensures old(CurrentUser()).None? ==> resp == ToLogin && follow == old(follow)
      ensures old(CurrentUser()).Some? ==>
        && follow == RemoveEdge(old(follow), Edge(session.value, id))
        && resp == Redirect(BlogProfile(id), None)
    {
      var denied := LoginRequired();
      if denied.Some? {
        return denied.value;
      }
      var e := Edge(session.value, id);
      if e in follow {
        RemoveEdgeNoDup(follow, e);
        follow := RemoveEdge(follow, e);
      }
      return Redirect(BlogProfile(id), None);
    }

    /**
     * A registration followed by a login with the same password, where the
     * check accepts the password against the hash stored at registration:
     * the session then names the new user and stamps their login time.
     */
    method RegisterThenLogin(username: string, password: string, email: string, hash: string,
                             now: int, check: (string, string) -> bool)
      returns (registered: Response, loggedIn: Response)
      requires Valid()
      requires username != "" && password != "" && email != "" && !UsernameTaken(username)
      requires check(hash, password)
      modifies this
      ensures Valid()
      ensures registered == Redirect(AuthLogin, None)
      ensures session == Some(old(nextId)) && CurrentUser() == session
      ensures users[old(nextId)].username == username && users[old(nextId)].lastLogin == Some(now)
      ensures loggedIn == Redirect(BlogIndex, None)
    {
      registered := Register(username, password, Some(email), hash);
      loggedIn := Login(username, password, now, check);
    }

    /** `following`, behind `login_required`: the users `id` follows. */
    method Following(id: nat) returns (resp: Response)
      ensures CurrentUser().None? ==> resp == ToLogin
      ensures CurrentUser().Some? ==> resp == Render(FollowingList(Join(follow, users, id, SocialGraph.Following)), None)
    {
      var denied := LoginRequired();
      if denied.Some? {
        return denied.value;
      }
      return Render(FollowingList(Join(follow, users, id, SocialGraph.Following)), None);
    }

    /** `followers`, behind `login_required`: the users who follow `id`. */
    method Followers(id: nat) returns (resp: Response)
      ensures CurrentUser().None? ==> resp == ToLogin
      ensures CurrentUser().Some? ==> resp == Render(FollowersList(Join(follow, users, id, SocialGraph.Followers)), None)
    {
      var denied := LoginRequired();
      if denied.Some? {
        return denied.value;
      }
      return Render(FollowersList(Join(follow, users, id, SocialGraph.Followers)), None);
    }
  }
}
