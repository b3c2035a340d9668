/** The account server's `users` table and the four request handlers that
    read and change it: signup, login, profile-picture upload and get-user.
    Each handler answers with a status code and a message, as the routes
    do. Password hashing is a pair of functions passed in by the caller,
    since its internals belong to the hashing library. */
module Accounts {
  import opened Js
  import Uploads

  /** What the hashing library stores for a password. */
  type Digest = string

  /** The cost factor the signup route asks the hashing library for. */
  const SaltRounds: nat := 10

  /** The hashing library as the routes use it: `hash(password, rounds, salt)`
      with a fresh random salt, and `verify(password, digest)` (its `compare`). */
  datatype Hasher = Hasher(hash: (string, nat, string) -> Digest, verify: (string, Digest) -> bool)

  /** The one property the model assumes of the library: a password always
      verifies against any digest made from it. */
  ghost predicate Sound(h: Hasher) {
    forall password, rounds, salt :: h.verify(password, h.hash(password, rounds, salt))
  }

  /** A row of `users` (id, username, email, password, phone,
      profile_picture, created_at). */
  datatype User = User(
    id: nat,
    username: string,
    email: string,
    password: Digest,
    phone: Option<string>,
    profilePicture: Option<string>,
    createdAt: string)

  /** A row without its password: what login and get-user send back. */
  datatype PublicUser = PublicUser(
    id: nat,
    username: string,
    email: string,
    phone: Option<string>,
    profilePicture: Option<string>,
    createdAt: string)

  function Public(u: User): (p: PublicUser)
    ensures p.id == u.id && p.username == u.username && p.email == u.email
    ensures p.phone == u.phone && p.profilePicture == u.profilePicture && p.createdAt == u.createdAt
  {
    PublicUser(u.id, u.username, u.email, u.phone, u.profilePicture, u.createdAt)
  }

  /** The public view does not depend on the stored digest: replacing a
      row's password leaves what a client sees unchanged. */
  lemma PublicIgnoresPassword(u: User, digest: Digest)
    ensures Public(u.(password := digest)) == Public(u)
  {
  }

  /** A request field that JavaScript treats as true: present and not "". */
  predicate Present(field: Option<string>) {
    field.Some? && field.value != ""
  }

  datatype SignupRequest = SignupRequest(
    username: Option<string>,
    email: Option<string>,
    password: Option<string>,
    phone: Option<string>)

  datatype LoginRequest = LoginRequest(email: Option<string>, password: Option<string>)

  /** A route's answer; every variant but `Failure` has status 200. */
  datatype Reply =
    | Failure(status: nat, error: string)
    | Created(message: string, userId: nat)
    | LoggedIn(message: string, user: PublicUser)
    | PictureUpdated(message: string, profilePicture: string)
    | Found(user: PublicUser)

  /** The constraints of the table: ids are positive, never above the last
      id handed out, and distinct; usernames and emails are distinct and,
      since only signup inserts, never empty. */
  ghost predicate TableInvariant(rows: seq<User>, lastId: nat) {
    && (forall i | 0 <= i < |rows| ::
          1 <= rows[i].id <= lastId && rows[i].username != "" && rows[i].email != "")
    && (forall i, j | 0 <= i < j < |rows| ::
          rows[i].id != rows[j].id && rows[i].username != rows[j].username && rows[i].email != rows[j].email)
  }

  /** The first row a `SELECT ... WHERE` finds, in table order. */
  function FirstMatch(rows: seq<User>, matches: User -> bool): (r: Option<nat>)
    ensures r.None? <==> forall i | 0 <= i < |rows| :: !matches(rows[i])
    ensures r.Some? ==> r.value < |rows| && matches(rows[r.value])
    ensures r.Some? ==> forall j | 0 <= j < r.value :: !matches(rows[j])
    decreases |rows|
  {
    if rows == [] then None
    else if matches(rows[0]) then Some(0)
    else match FirstMatch(rows[1..], matches)
      case None => None
      case Some(k) => Some(k + 1)
  }

  /** Some row already holds the email or the username. */
  ghost predicate Taken(rows: seq<User>, username: string, email: string) {
    exists i | 0 <= i < |rows| :: rows[i].email == email || rows[i].username == username
  }

  /** `UPDATE users SET profile_picture = path WHERE id = userId`: a missing
      id matches no row. */
  function SetPicture(rows: seq<User>, userId: Option<int>, path: string): (updated: seq<User>)
    ensures |updated| == |rows|
    ensures forall i | 0 <= i < |rows| ::
      updated[i] == if userId == Some(rows[i].id as int) then rows[i].(profilePicture := Some(path)) else rows[i]
  {
    seq(|rows|, i requires 0 <= i < |rows| =>
      if userId == Some(rows[i].id as int) then rows[i].(profilePicture := Some(path)) else rows[i])
  }

  /** An update whose id matches no row changes nothing. */
  lemma SetPictureNoMatch(rows: seq<User>, userId: Option<int>, path: string)
    requires forall i | 0 <= i < |rows| :: userId != Some(rows[i].id as int)
    ensures SetPicture(rows, userId, path) == rows
  {
  }

  /** A new row with an id above every other and a username and email no
      row has keeps the table's constraints. */
  lemma InsertKeepsInvariant(rows: seq<User>, lastId: nat, u: User)
    requires TableInvariant(rows, lastId)
    requires u.id == lastId + 1 && u.username != "" && u.email != ""
    requires !Taken(rows, u.username, u.email)
    ensures TableInvariant(rows + [u], lastId + 1)
  {
  }

  /** Setting a picture leaves ids, usernames and emails alone, so it keeps
      the table's constraints. */
  lemma SetPictureKeepsInvariant(rows: seq<User>, lastId: nat, userId: Option<int>, path: string)
    requires TableInvariant(rows, lastId)
    ensures TableInvariant(SetPicture(rows, userId, path), lastId)
  {
  }

  /** The `users` table: its rows in insertion order and the largest id
      handed out so far (the AUTOINCREMENT counter). */
  class UsersTable {
    var rows: seq<User>
    var lastId: nat

    ghost predicate Valid()
      reads this
    {
      TableInvariant(rows, lastId)
    }

    /** A newly created, empty table. */
    constructor ()
      ensures Valid() && rows == [] && lastId == 0
    {
      rows := [];
      lastId := 0;
    }

    /** POST /api/signup: the three fields must be present; no row may hold
        the email or the username; then the password is hashed and the row
        inserted with the next id, which is returned. */
    method Signup(req: SignupRequest, h: Hasher, salt: string, now: string) returns (reply: Reply)
      requires Valid()
      modifies this
      ensures Valid()
      ensures !(Present(req.username) && Present(req.email) && Present(req.password)) ==>
        reply == Failure(400, "Username, email, and password are required") && unchanged(this)
      ensures (Present(req.username) && Present(req.email) && Present(req.password) &&
               Taken(old(rows), req.username.value, req.email.value)) ==>
        reply == Failure(400, "User already exists") && unchanged(this)
      ensures (Present(req.username) && Present(req.email) && Present(req.password) &&
               !Taken(old(rows), req.username.value, req.email.value)) ==>
        && lastId == old(lastId) + 1
        && reply == Created("User created successfully", lastId)
        && (forall i | 0 <= i < |old(rows)| :: old(rows)[i].id < lastId)
        && rows == old(rows) + [User(lastId, req.username.value, req.email.value,
                                     h.hash(req.password.value, SaltRounds, salt), req.phone, None, now)]
    {
      if !(Present(req.username) && Present(req.email) && Present(req.password)) {
        return Failure(400, "Username, email, and password are required");
      }
      var username, email, password := req.username.value, req.email.value, req.password.value;
      var existing := FirstMatch(rows, (u: User) => u.email == email || u.username == username);
      if existing.Some? {
        return Failure(400, "User already exists");
      }
      var hashed := h.hash(password, SaltRounds, salt);
      var user := User(lastId + 1, username, email, hashed, req.phone, None, now);
      InsertKeepsInvariant(rows, lastId, user);
      rows := rows + [user];
      lastId := lastId + 1;
      reply := Created("User created successfully", lastId);
    }

    /** POST /api/login: both fields must be present; an unknown email and a
        wrong password get the same 401 answer; on success the row is sent
        back without its password. */
    method Login(req: LoginRequest, h: Hasher) returns (reply: Reply)
      requires Valid()
      ensures !(Present(req.email) && Present(req.password)) ==>
        reply == Failure(400, "Email and password are required")
      ensures Present(req.email) && Present(req.password) ==>
        (reply.LoggedIn? <==> exists i | 0 <= i < |rows| ::
           rows[i].email == req.email.value && h.verify(req.password.value, rows[i].password))
      ensures Present(req.email) && Present(req.password) && !reply.LoggedIn? ==>
        reply == Failure(401, "Invalid credentials")
      ensures reply.LoggedIn? ==>
        reply.message == "Login successful" &&
        exists i | 0 <= i < |rows| :: rows[i].email == req.email.value && reply.user == Public(rows[i])
    {
      if !(Present(req.email) && Present(req.password)) {
        return Failure(400, "Email and password are required");
      }
      var email, password := req.email.value, req.password.value;
      var found := FirstMatch(rows, (u: User) => u.email == email);
      if found.None? {
        return Failure(401, "Invalid credentials");
      }
      var user := rows[found.value];
      if !h.verify(password, user.password) {
        return Failure(401, "Invalid credentials");
      }
      reply := LoggedIn("Login successful", Public(user));
    }

    /** POST /api/upload-profile-picture: the upload middleware screens the
        file and stores it under a generated name; the handler then records
        the path on the row with the given id. When no row has that id
        nothing changes, yet success is reported all the same. */
    method UploadProfilePicture(file: Option<Uploads.UploadedFile>, userId: Option<int>, millis: nat, random: nat)
      returns (reply: Reply)
      requires Valid()
      modifies this
      ensures Valid() && lastId == old(lastId)
      ensures file.None? ==> reply == Failure(400, "No file uploaded") && rows == old(rows)
      ensures file.Some? && Uploads.Screen(file.value).Rejected? ==>
        reply == Failure(500, Uploads.Screen(file.value).message) && rows == old(rows)
      ensures file.Some? && Uploads.Screen(file.value).Accepted? ==>
        var path := Uploads.ProfilePath(Uploads.StoredName(Uploads.UniqueSuffix(millis, random), file.value.originalName));
        reply == PictureUpdated("Profile picture updated successfully", path) &&
        rows == SetPicture(old(rows), userId, path)
    {
      if file.Some? {
        var verdict := Uploads.Screen(file.value);
        if verdict.Rejected? {
          return Failure(500, verdict.message);
        }
      } else {
        return Failure(400, "No file uploaded");
      }
      var filename := Uploads.StoredName(Uploads.UniqueSuffix(millis, random), file.value.originalName);
      var path := Uploads.ProfilePath(filename);
      SetPictureKeepsInvariant(rows, lastId, userId, path);
      rows := SetPicture(rows, userId, path);
      reply := PictureUpdated("Profile picture updated successfully", path);
    }

    /** GET /api/user/:id: 404 when no row has the id, otherwise the row
        without its password. */
    method GetUser(userId: Option<int>) returns (reply: Reply)
      requires Valid()
      ensures reply.Found? <==> exists i | 0 <= i < |rows| :: userId == Some(rows[i].id as int)
      ensures reply.Found? ==> exists i | 0 <= i < |rows| :: userId == Some(rows[i].id as int) && reply.user == Public(rows[i])
      ensures !reply.Found? ==> reply == Failure(404, "User not found")
    {
      var found := FirstMatch(rows, (u: User) => userId == Some(u.id as int));
      if found.None? {
        return Failure(404, "User not found");
      }
      reply := Found(Public(rows[found.value]));
    }
  }

  /** Signing up and then logging in with the same email and password
      succeeds, and login returns the row signup created. */
  method SignupThenLogin(table: UsersTable, h: Hasher, username: string, email: string, password: string,
                         phone: Option<string>, salt: string, now: string)
    returns (created: Reply, loggedIn: Reply)
    requires table.Valid() && Sound(h)
    requires username != "" && email != "" && password != ""
    requires !Taken(table.rows, username, email)
    modifies table
    ensures created.Created? && loggedIn.LoggedIn?
    ensures loggedIn.user == PublicUser(created.userId, username, email, phone, None, now)
  {
    created := table.Signup(SignupRequest(Some(username), Some(email), Some(password), phone), h, salt, now);
    var n := |table.rows| - 1;
    assert table.rows[n].email == email && h.verify(password, table.rows[n].password);
    loggedIn := table.Login(LoginRequest(Some(email), Some(password)), h);
    var i :| 0 <= i < |table.rows| && table.rows[i].email == email && loggedIn.user == Public(table.rows[i]);
    assert i == n;
  }

  /** Uploading a picture for an existing user and then asking for that
      user: the upload succeeds exactly when the file passes the filter and
      the size limit, and then get-user shows the new picture reference. */
  method UploadThenGetUser(table: UsersTable, file: Uploads.UploadedFile, id: nat, millis: nat, random: nat)
    returns (uploaded: Reply, fetched: Reply)
    requires table.Valid()
    requires exists i | 0 <= i < |table.rows| :: table.rows[i].id == id
    modifies table
    ensures uploaded.PictureUpdated? <==> Uploads.Screen(file).Accepted?
    ensures fetched.Found? && fetched.user.id == id
    ensures uploaded.PictureUpdated? ==> fetched.user.profilePicture == Some(uploaded.profilePicture)
  {
    var k :| 0 <= k < |table.rows| && table.rows[k].id == id;
    uploaded := table.UploadProfilePicture(Some(file), Some(id), millis, random);
    assert table.rows[k].id == id;
    fetched := table.GetUser(Some(id));
    var i :| 0 <= i < |table.rows| && Some(id as int) == Some(table.rows[i].id as int) && fetched.user == Public(table.rows[i]);
    assert i == k;
  }
}
