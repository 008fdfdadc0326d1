/** The user registry: the list of user records kept in the users file, the
    checks made when a user is added, the login test, admin approval by the
    super-admin, profile edits, and kicking a user out.  The password hash is
    a parameter, standing for SHA-256 over the password's bytes. */
module Registry {
  import opened Wrappers
  import opened Text
  import opened TimeLog

  /** The one user who approves admins; recognised by id alone. */
  const SuperAdminId := "The G.O.A.T"

  datatype User = User(
    id: string,
    password: string,        // the hash of the password, never the password
    createdAt: string,
    fullName: string,
    email: string,
    role: string,            // "user" or "admin"
    status: string,
    adminRequested: bool,
    photo: Option<string>)

  /** A row of the info table: the user's id, names and email. */
  datatype InfoRow = InfoRow(userId: string, firstName: string, lastName: string, email: string)

  datatype NameParts = NameParts(first: string, last: string)

  predicate UniqueIds(users: seq<User>)
  {
    forall i, j :: 0 <= i < j < |users| ==> users[i].id != users[j].id
  }

  /** Some record has the id. */
  predicate IdTaken(users: seq<User>, id: string)
  {
    exists i :: 0 <= i < |users| && users[i].id == id
  }

  /** The position of the first record with the id, if any. */
  function FindUser(users: seq<User>, id: string): (r: Option<nat>)
    ensures r.Some? ==> (r.value < |users| && users[r.value].id == id &&
                         forall j :: 0 <= j < r.value ==> users[j].id != id)
    ensures r.None? <==> !IdTaken(users, id)
  {
    if users == [] then None
    else if users[0].id == id then Some(0)
    else
      match FindUser(users[1..], id)
      case Some(k) => Some(k + 1)
      case None =>
        assert forall j :: 1 <= j < |users| ==> users[j] == users[1..][j - 1];
        None
  }

  /** The session's admin flag: the first record with the id has role "admin". */
  predicate IsAdmin(users: seq<User>, current: string)
    ensures IsAdmin(users, current) <==>
      exists i :: 0 <= i < |users| && users[i].id == current && users[i].role == "admin" &&
        forall j :: 0 <= j < i ==> users[j].id != current
  {
    match FindUser(users, current)
    case Some(i) => users[i].role == "admin"
    case None => false
  }

  predicate IsSuperAdmin(current: string)
  {
    current == SuperAdminId
  }

  /** The login test: the first user with the id has the hash of the
      password given. */
  predicate LoginSucceeds(users: seq<User>, id: string, password: string, hash: string -> string)
    ensures LoginSucceeds(users, id, password, hash) <==>
      exists i :: 0 <= i < |users| && users[i].id == id && users[i].password == hash(password) &&
        forall j :: 0 <= j < i ==> users[j].id != id
  {
    match FindUser(users, id)
    case Some(i) => users[i].password == hash(password)
    case None => false
  }

  // ---------------------------------------------------------------------------
  // Adding users

  datatype AddOutcome = MissingFields | DuplicateId | Added

  /** The checks before a user is added: id, password and full name must be
      non-empty, then the id must be new. */
  function CheckNewUser(users: seq<User>, id: string, password: string, fullName: string): (r: AddOutcome)
    ensures r == MissingFields <==> id == [] || password == [] || fullName == []
    ensures r == DuplicateId <==> id != [] && password != [] && fullName != [] && IdTaken(users, id)
  {
    if id == [] || password == [] || fullName == [] then MissingFields
    else if FindUser(users, id).Some? then DuplicateId
    else Added
  }

  function NewUser(id: string, password: string, fullName: string, email: string, role: string,
                   createdAt: string, hash: string -> string): (u: User)
    ensures u.id == id && u.password == hash(password) && u.createdAt == createdAt
    ensures u.fullName == fullName && u.email == email && u.role == role
    ensures u.status == "active" && !u.adminRequested && u.photo.None?
  {
    User(id, hash(password), createdAt, fullName, email, role, "active", false, None)
  }

  /** A user just added logs in with the password given at sign-up, and
      nobody else's login changes. */
  lemma AddedUserLogsIn(users: seq<User>, id: string, password: string, fullName: string, email: string,
                        role: string, createdAt: string, hash: string -> string, other: string, attempt: string)
    requires CheckNewUser(users, id, password, fullName) == Added
    ensures var users' := users + [NewUser(id, password, fullName, email, role, createdAt, hash)];
      LoginSucceeds(users', id, password, hash) &&
      (other != id ==> LoginSucceeds(users', other, attempt, hash) == LoginSucceeds(users, other, attempt, hash))
  {
    var u := NewUser(id, password, fullName, email, role, createdAt, hash);
    FirstMatchSurvivesAppend(users, u, other);
    FirstMatchSurvivesAppend(users, u, id);
  }

  /** Appending a record moves no first match; it is found only for an id
      not registered before. */
  lemma {:induction false} FirstMatchSurvivesAppend(users: seq<User>, u: User, id: string)
    ensures FindUser(users + [u], id) ==
      match FindUser(users, id)
      case Some(k) => Some(k)
      case None => if u.id == id then Some(|users|) else None
  {
    if users != [] && users[0].id != id {
      assert (users + [u])[1..] == users[1..] + [u];
      FirstMatchSurvivesAppend(users[1..], u, id);
    }
  }

  /** The info table's names, split at most once on a space: the text before the
      first space, and everything after it ("" when there is no space). */
  function SplitFullName(fullName: string): (r: NameParts)
    ensures ' ' !in r.first
    ensures ' ' in fullName ==> fullName == r.first + " " + r.last
    ensures ' ' !in fullName ==> fullName == r.first && r.last == ""
  {
    if ' ' in fullName then
      var i := IndexOf(fullName, ' ');
      assert fullName == fullName[..i] + " " + fullName[i + 1..];
      NameParts(fullName[..i], fullName[i + 1..])
    else NameParts(fullName, "")
  }

  /** The split is the only one with a space-free first name. */
  lemma SplitFullNameUnique(fullName: string, first: string, last: string)
    requires ' ' !in first && fullName == first + " " + last
    ensures SplitFullName(fullName) == NameParts(first, last)
  {
    var r := SplitFullName(fullName);
    var i := IndexOf(fullName, ' ');
    assert fullName[|first|] == ' ';
    assert r.first == first;
    assert fullName[|first| + 1..] == last;
  }

  function InfoRowFor(id: string, fullName: string, email: string): (r: InfoRow)
    ensures r.userId == id && r.email == email && ' ' !in r.firstName
    ensures ' ' in fullName ==> fullName == r.firstName + " " + r.lastName
    ensures ' ' !in fullName ==> fullName == r.firstName && r.lastName == ""
  {
    var name := SplitFullName(fullName);
    InfoRow(id, name.first, name.last, email)
  }

  // ---------------------------------------------------------------------------
  // Kicking out

  /** The ids offered for kicking out: everyone but the current user and the
      super-admin, in registry order. */
  function KickableIds(users: seq<User>, current: string): (r: seq<string>)
    ensures forall x :: x in r <==> IdTaken(users, x) && x != current && x != SuperAdminId
  {
    if users == [] then []
    else
      var rest := KickableIds(users[1..], current);
      assert forall x :: IdTaken(users, x) <==> users[0].id == x || IdTaken(users[1..], x) by {
        forall x | IdTaken(users, x) && users[0].id != x ensures IdTaken(users[1..], x) {
          var i :| 0 <= i < |users| && users[i].id == x;
          assert users[1..][i - 1].id == x;
        }
        forall x | IdTaken(users[1..], x) ensures IdTaken(users, x) {
          var i :| 0 <= i < |users| - 1 && users[1..][i].id == x;
          assert users[i + 1].id == x;
        }
      }
      var u := users[0];
      if u.id != current && u.id != SuperAdminId then [u.id] + rest else rest
  }

  /** The records whose id is not the target, in order. */
  function WithoutUser(users: seq<User>, target: string): (r: seq<User>)
    ensures forall u :: u in r <==> u in users && u.id != target
    ensures !IdTaken(r, target)
  {
    if users == [] then []
    else
      var rest := WithoutUser(users[1..], target);
      assert forall u :: u in users <==> u == users[0] || u in users[1..];
      if users[0].id != target then [users[0]] + rest else rest
  }

  /** Removing records keeps the ids unique. */
  lemma {:induction false} WithoutUserKeepsUniqueIds(users: seq<User>, target: string)
    requires UniqueIds(users)
    ensures UniqueIds(WithoutUser(users, target))
  {
    if users != [] {
      var rest := WithoutUser(users[1..], target);
      WithoutUserKeepsUniqueIds(users[1..], target);
      if users[0].id != target {
        forall j | 0 <= j < |rest| ensures rest[j].id != users[0].id {
          assert rest[j] in users[1..];
        }
      }
    }
  }

  /** Removing a user's records from two parts removes them from the whole. */
  lemma {:induction false} WithoutUserAppend(xs: seq<User>, ys: seq<User>, target: string)
    ensures WithoutUser(xs + ys, target) == WithoutUser(xs, target) + WithoutUser(ys, target)
  {
    if xs == [] {
      assert xs + ys == ys;
    } else {
      assert (xs + ys)[0] == xs[0] && (xs + ys)[1..] == xs[1..] + ys;
      WithoutUserAppend(xs[1..], ys, target);
    }
  }

  /** With unique ids, kicking a registered id removes exactly one record. */
  lemma {:induction false} KickRemovesOne(users: seq<User>, target: string)
    requires UniqueIds(users) && IdTaken(users, target)
    ensures |WithoutUser(users, target)| == |users| - 1
  {
    if users[0].id == target {
      NotTakenIsKept(users[1..], target);
    } else {
      var i :| 0 <= i < |users| && users[i].id == target;
      assert users[1..][i - 1].id == target;
      KickRemovesOne(users[1..], target);
    }
  }

  lemma {:induction false} NotTakenIsKept(users: seq<User>, target: string)
    requires !IdTaken(users, target)
    ensures WithoutUser(users, target) == users
  {
    if users != [] {
      assert users[0].id != target;
      assert forall j :: 0 <= j < |users| - 1 ==> users[1..][j] == users[j + 1];
      NotTakenIsKept(users[1..], target);
      assert users == [users[0]] + users[1..];
    }
  }

  /** The entries that are not the target's, in order. */
  function WithoutEntriesOf(entries: seq<Entry>, target: string): (r: seq<Entry>)
    ensures forall e :: e in r <==> e in entries && e.userId != target
  {
    if entries == [] then []
    else
      var rest := WithoutEntriesOf(entries[1..], target);
      assert forall e :: e in entries <==> e == entries[0] || e in entries[1..];
      if entries[0].userId != target then [entries[0]] + rest else rest
  }

  /** The entries of one user: what the session frame is loaded with. */
  function EntriesOf(entries: seq<Entry>, id: string): (r: seq<Entry>)
    ensures forall e :: e in r <==> e in entries && e.userId == id
  {
    if entries == [] then []
    else
      var rest := EntriesOf(entries[1..], id);
      assert forall e :: e in entries <==> e == entries[0] || e in entries[1..];
      if entries[0].userId == id then [entries[0]] + rest else rest
  }

  /** Dropping a user's entries from two parts of the log drops them from
      the whole: the entries kept stay in their order. */
  lemma {:induction false} WithoutEntriesOfAppend(xs: seq<Entry>, ys: seq<Entry>, target: string)
    ensures WithoutEntriesOf(xs + ys, target) == WithoutEntriesOf(xs, target) + WithoutEntriesOf(ys, target)
  {
    if xs == [] {
      assert xs + ys == ys;
    } else {
      assert (xs + ys)[0] == xs[0] && (xs + ys)[1..] == xs[1..] + ys;
      WithoutEntriesOfAppend(xs[1..], ys, target);
    }
  }

  /** A user's entries in two parts of the log, in order, are the user's
      entries in the whole. */
  lemma {:induction false} EntriesOfAppend(xs: seq<Entry>, ys: seq<Entry>, id: string)
    ensures EntriesOf(xs + ys, id) == EntriesOf(xs, id) + EntriesOf(ys, id)
  {
    if xs == [] {
      assert xs + ys == ys;
    } else {
      assert (xs + ys)[0] == xs[0] && (xs + ys)[1..] == xs[1..] + ys;
      EntriesOfAppend(xs[1..], ys, id);
    }
  }

  /** Entry by entry: an entry is appended to the result exactly when it is
      not the target's.  With `WithoutEntriesOf([], target) == []` this
      fixes the result, order and repeats included. */
  lemma WithoutEntriesOfSnoc(entries: seq<Entry>, e: Entry, target: string)
    ensures WithoutEntriesOf(entries + [e], target) ==
      WithoutEntriesOf(entries, target) + (if e.userId != target then [e] else [])
  {
    WithoutEntriesOfAppend(entries, [e], target);
    assert [e][1..] == [];
  }

  /** Entry by entry: an entry is appended to the session frame exactly when
      it is the user's. */
  lemma EntriesOfSnoc(entries: seq<Entry>, e: Entry, id: string)
    ensures EntriesOf(entries + [e], id) == EntriesOf(entries, id) + (if e.userId == id then [e] else [])
  {
    EntriesOfAppend(entries, [e], id);
    assert [e][1..] == [];
  }

  /** The session frame holds only the current user's entries, so dropping
      another user's entries from it removes nothing. */
  lemma {:induction false} SessionKickRemovesNothing(entries: seq<Entry>, current: string, target: string)
    requires target != current
    ensures WithoutEntriesOf(EntriesOf(entries, current), target) == EntriesOf(entries, current)
  {
    if entries != [] {
      SessionKickRemovesNothing(entries[1..], current, target);
    }
  }

  // ---------------------------------------------------------------------------
  // Profile edits

  datatype ProfileOutcome = NoProfile | Mismatch | Saved

  /** The record after "Save My Profile": new name and email, and the new
      password's hash when one was typed.  The id never changes. */
  function EditedProfile(u: User, name: string, email: string, newPass: string, hash: string -> string): (r: User)
    ensures r.id == u.id && r.role == u.role && r.createdAt == u.createdAt
    ensures r.fullName == name && r.email == email
    ensures r.status == u.status && r.adminRequested == u.adminRequested && r.photo == u.photo
    ensures newPass != [] ==> r.password == hash(newPass)
    ensures newPass == [] ==> r.password == u.password
  {
    u.(fullName := name, email := email, password := if newPass != [] then hash(newPass) else u.password)
  }

  /** After a save, the new password logs in; with none typed, the old one
      still does. */
  lemma EditedProfileLogin(users: seq<User>, i: nat, name: string, email: string, newPass: string,
                           hash: string -> string, oldPass: string)
    requires i < |users| && FindUser(users, users[i].id) == Some(i)
    ensures var users' := users[i := EditedProfile(users[i], name, email, newPass, hash)];
      (newPass != [] ==> LoginSucceeds(users', users[i].id, newPass, hash)) &&
      (newPass == [] ==> LoginSucceeds(users', users[i].id, oldPass, hash) == LoginSucceeds(users, users[i].id, oldPass, hash))
  {
    var users' := users[i := EditedProfile(users[i], name, email, newPass, hash)];
    SameIdsSameFind(users, users', users[i].id);
  }

  /** Lists with the same ids at every position find the same position. */
  lemma {:induction false} SameIdsSameFind(users: seq<User>, users': seq<User>, id: string)
    requires |users| == |users'| && forall j :: 0 <= j < |users| ==> users[j].id == users'[j].id
    ensures FindUser(users', id) == FindUser(users, id)
  {
    if users != [] && users[0].id != id {
      SameIdsSameFind(users[1..], users'[1..], id);
    }
  }

  // ---------------------------------------------------------------------------
  // The registry

  class Registry {
    /** The user records, in the order of the users file. */
    var users: seq<User>
    /** The rows written to the info table at sign-up. */
    var info: seq<InfoRow>
    /** The stored time log, of every user. */
    var timeLog: seq<Entry>
    /** The session frame: the logged-in user's entries, reloaded each run. */
    var sessionLog: seq<Entry>

    predicate Valid()
      reads this
    {
      UniqueIds(users)
    }

    /** A run for the logged-in user `current`: the stored records are read
        and the session frame is loaded with the user's own entries. */
    constructor(stored: seq<User>, entries: seq<Entry>, current: string)
      ensures users == stored && info == [] && timeLog == entries
      ensures sessionLog == EntriesOf(entries, current)
    {
      users := stored;
      info := [];
      timeLog := entries;
      sessionLog := EntriesOf(entries, current);
    }

    /** The sign-up form: a new account with role "user", and its info row. */
    method SignUp(id: string, password: string, fullName: string, email: string, createdAt: string,
                  hash: string -> string) returns (outcome: AddOutcome)
      modifies this
      ensures outcome == CheckNewUser(old(users), id, password, fullName)
      ensures outcome == Added ==>
        users == old(users) + [NewUser(id, password, fullName, email, "user", createdAt, hash)] &&
        info == old(info) + [InfoRowFor(id, fullName, email)]
      ensures outcome != Added ==> users == old(users) && info == old(info)
      ensures timeLog == old(timeLog) && sessionLog == old(sessionLog)
      ensures old(Valid()) ==> Valid()
    {
      outcome := CheckNewUser(users, id, password, fullName);
      if outcome == Added {
        users := users + [NewUser(id, password, fullName, email, "user", createdAt, hash)];
        info := info + [InfoRowFor(id, fullName, email)];
      }
    }

    /** The "Add User" form of the management page: the role is chosen, and
        no info row is written. */
    method AddUser(id: string, password: string, fullName: string, email: string, role: string,
                   createdAt: string, hash: string -> string) returns (outcome: AddOutcome)
      requires role == "user" || role == "admin"
      modifies this
      ensures outcome == CheckNewUser(old(users), id, password, fullName)
      ensures outcome == Added ==> users == old(users) + [NewUser(id, password, fullName, email, role, createdAt, hash)]
      ensures outcome != Added ==> users == old(users)
      ensures info == old(info) && timeLog == old(timeLog) && sessionLog == old(sessionLog)
      ensures old(Valid()) ==> Valid()
    {
      outcome := CheckNewUser(users, id, password, fullName);
      if outcome == Added {
        users := users + [NewUser(id, password, fullName, email, role, createdAt, hash)];
      }
    }

    /** The form shown while the registry is empty: the first account is an
        admin, and gets its info row. */
    method RegisterFirstUser(id: string, password: string, fullName: string, email: string, createdAt: string,
                             hash: string -> string) returns (ok: bool)
      requires users == []
      modifies this
      ensures ok <==> id != [] && password != [] && fullName != []
      ensures ok ==> (users == [NewUser(id, password, fullName, email, "admin", createdAt, hash)] &&
                      info == old(info) + [InfoRowFor(id, fullName, email)])
      ensures !ok ==> users == [] && info == old(info)
      ensures timeLog == old(timeLog) && sessionLog == old(sessionLog)
      ensures Valid()
    {
      ok := id != [] && password != [] && fullName != [];
      if ok {
        users := [NewUser(id, password, fullName, email, "admin", createdAt, hash)];
        info := info + [InfoRowFor(id, fullName, email)];
      }
    }

    /** The "Approve admin" button of the record at `i`: only the super-admin
        sees it, and only for records that are neither the super-admin's nor
        already an admin's.  Whether the user asked for it plays no part. */
    method ApproveAdmin(current: string, i: nat) returns (ok: bool)
      requires i < |users|
      modifies this
      ensures ok <==> IsSuperAdmin(current) && old(users)[i].id != SuperAdminId && old(users)[i].role != "admin"
      ensures ok ==> users == old(users)[i := old(users)[i].(role := "admin", adminRequested := false)]
      ensures !ok ==> users == old(users)
      ensures info == old(info) && timeLog == old(timeLog) && sessionLog == old(sessionLog)
      ensures old(Valid()) ==> Valid()
    {
      ok := IsSuperAdmin(current) && users[i].id != SuperAdminId && users[i].role != "admin";
      if ok {
        users := users[i := users[i].(role := "admin", adminRequested := false)];
      }
    }

    /** "Kick Out User" as the page does it: the records with the id go, and
        the id's entries are dropped from the session frame only. */
    method KickOut(current: string, target: string) returns (ok: bool)
      modifies this
      ensures ok <==> (IsAdmin(old(users), current) || IsSuperAdmin(current)) && target in KickableIds(old(users), current)
      ensures ok ==> users == WithoutUser(old(users), target) && sessionLog == WithoutEntriesOf(old(sessionLog), target)
      ensures !ok ==> users == old(users) && sessionLog == old(sessionLog)
      ensures info == old(info) && timeLog == old(timeLog)
      ensures old(Valid()) ==> Valid()
      ensures old(Valid()) && ok ==> |users| == |old(users)| - 1
    {
      ok := (IsAdmin(users, current) || IsSuperAdmin(current)) && target in KickableIds(users, current);
      if ok {
        if Valid() {
          KickRemovesOne(users, target);
          WithoutUserKeepsUniqueIds(users, target);
        }
        users := WithoutUser(users, target);
        sessionLog := WithoutEntriesOf(sessionLog, target);
      }
    }

    /** Kicking out as the page promises: the page's kick-out, followed by
        the removal of all of the user's stored entries. */
    method KickOutWithEntries(current: string, target: string) returns (ok: bool)
      modifies this
      ensures ok <==> (IsAdmin(old(users), current) || IsSuperAdmin(current)) && target in KickableIds(old(users), current)
      ensures ok ==> (users == WithoutUser(old(users), target) && timeLog == WithoutEntriesOf(old(timeLog), target) &&
                      sessionLog == WithoutEntriesOf(old(sessionLog), target))
      ensures !ok ==> users == old(users) && timeLog == old(timeLog) && sessionLog == old(sessionLog)
      ensures info == old(info)
      ensures old(Valid()) ==> Valid()
      ensures old(Valid()) && ok ==> |users| == |old(users)| - 1
    {
      ok := KickOut(current, target);
      if ok {
        timeLog := WithoutEntriesOf(timeLog, target);
      }
    }

    /** "Save My Profile" for the logged-in user.  When the two new-password
        fields differ the run stops before the records are written, so the
        stored records stay as they were. */
    method UpdateProfile(current: string, name: string, email: string, newPass: string, confirm: string,
                         hash: string -> string) returns (outcome: ProfileOutcome)
      modifies this
      ensures outcome == NoProfile <==> !IdTaken(old(users), current)
      ensures outcome == Mismatch <==> IdTaken(old(users), current) && newPass != [] && newPass != confirm
      ensures outcome == Saved ==>
        var i := FindUser(old(users), current).value;
        users == old(users)[i := EditedProfile(old(users)[i], name, email, newPass, hash)]
      ensures outcome != Saved ==> users == old(users)
      ensures info == old(info) && timeLog == old(timeLog) && sessionLog == old(sessionLog)
      ensures old(Valid()) ==> Valid()
    {
      match FindUser(users, current)
      case None =>
        outcome := NoProfile;
      case Some(i) =>
        if newPass != [] && newPass != confirm {
          outcome := Mismatch;
        } else {
          users := users[i := EditedProfile(users[i], name, email, newPass, hash)];
          outcome := Saved;
        }
    }
  }
}
