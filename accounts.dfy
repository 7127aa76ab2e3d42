/** The user table of the reservation backend: the `User` model, its `save` hook that
    promotes superusers to administrators, and the manager's `create_user` and
    `create_superuser` (book/models.py). Password hashing is a library call and is not
    modelled: the stored credential is the password as given. */
module Accounts {
  import opened Wrappers

  type UserId = nat

  /** One row of the user table. */
  datatype User = User(
    id: UserId,
    username: string,
    name: string,
    password: Option<string>,
    isAdmin: bool,
    isActive: bool,
    isStaff: bool,
    isSuperuser: bool)

  /** The keyword arguments a caller may pass as `**extra_fields`; `None` means "not passed". */
  datatype ExtraFields = ExtraFields(
    name: Option<string>,
    isAdmin: Option<bool>,
    isActive: Option<bool>,
    isStaff: Option<bool>,
    isSuperuser: Option<bool>)

  /** Why `create_user` refuses: the `ValueError` for a missing username, or the
      integrity error of the `unique=True` username column. */
  datatype UserError = UsernameRequired | UsernameTaken

  /** The effect of `User.save` on the row it writes: a superuser is always an administrator,
      and nothing else is touched. */
  function SaveAdjust(u: User): (r: User)
    ensures r.isSuperuser ==> r.isAdmin
    ensures u.isAdmin ==> r.isAdmin
    ensures !u.isSuperuser ==> r == u
    ensures r == u.(isAdmin := r.isAdmin)
  {
    if u.isSuperuser then u.(isAdmin := true) else u
  }

  /** Python's `dict.setdefault` on a boolean flag. */
  function SetDefault(flag: Option<bool>, default: bool): Option<bool> {
    if flag.Some? then flag else Some(default)
  }

  /** The extra fields `create_superuser` hands on to `create_user`. */
  function SuperuserFields(extra: ExtraFields): (r: ExtraFields)
    ensures r.isAdmin == Some(extra.isAdmin.GetOr(true))
    ensures r.isStaff == Some(extra.isStaff.GetOr(true))
    ensures r.name == extra.name && r.isActive == extra.isActive && r.isSuperuser == extra.isSuperuser
  {
    extra.(isAdmin := SetDefault(extra.isAdmin, true), isStaff := SetDefault(extra.isStaff, true))
  }

  /** The row `create_user` writes: `self.model(username=..., **extra_fields)` with the model's
      field defaults (empty name, not admin, active, not staff, not superuser), passed
      through `User.save`. */
  function NewUser(id: UserId, username: string, password: Option<string>, extra: ExtraFields): (u: User)
    ensures u.id == id && u.username == username && u.password == password
    ensures u.name == extra.name.GetOr("")
    ensures u.isAdmin == (extra.isAdmin == Some(true) || extra.isSuperuser == Some(true))
    ensures u.isSuperuser == (extra.isSuperuser == Some(true))
    ensures u.isStaff == (extra.isStaff == Some(true))
    ensures u.isActive == (extra.isActive != Some(false))
  {
    SaveAdjust(User(id, username, extra.name.GetOr(""), password,
                    extra.isAdmin.GetOr(false), extra.isActive.GetOr(true),
                    extra.isStaff.GetOr(false), extra.isSuperuser.GetOr(false)))
  }

  /** What `create_superuser` yields: an administrator and staff member unless the caller
      explicitly said otherwise. It does not set `is_superuser` itself, so the `save` hook only
      forces `is_admin` when the caller passed `is_superuser=True`. */
  lemma SuperuserDefaults(id: UserId, username: string, password: Option<string>, extra: ExtraFields)
    ensures var u := NewUser(id, username, password, SuperuserFields(extra));
      && (extra.isAdmin != Some(false) ==> u.isAdmin)
      && (extra.isStaff != Some(false) ==> u.isStaff)
      && (extra.isAdmin == Some(false) ==> (u.isAdmin <==> extra.isSuperuser == Some(true)))
      && u.isSuperuser == (extra.isSuperuser == Some(true))
  {
  }

  /** The user table, with rows in primary-key order and the next key to hand out. */
  class UserTable {
    var users: seq<User>
    var nextUserId: nat

    ghost predicate Valid()
      reads this
    {
      && (forall u, v :: u in users && v in users && u.username == v.username ==> u == v)
      && (forall u :: u in users ==> u.id < nextUserId && u.username != "")
      && (forall u :: u in users && u.isSuperuser ==> u.isAdmin)
    }

    function Usernames(): set<string>
      reads this
    {
      set u | u in users :: u.username
    }

    constructor ()
      ensures Valid() && users == [] && nextUserId == 0
    {
      users := [];
      nextUserId := 0;
    }

    /** `CustomUserManager.create_user`. */
    method CreateUser(username: Option<string>, password: Option<string>, extra: ExtraFields)
      returns (r: Result<User, UserError>)
      requires Valid()
      modifies this
      ensures Valid()
      ensures (username.None? || username.value == "") ==>
        r == Failure(UsernameRequired) && users == old(users) && nextUserId == old(nextUserId)
      ensures username.Some? && username.value != "" && username.value in old(Usernames()) ==>
        r == Failure(UsernameTaken) && users == old(users) && nextUserId == old(nextUserId)
      ensures username.Some? && username.value != "" && username.value !in old(Usernames()) ==>
        && r == Success(NewUser(old(nextUserId), username.value, password, extra))
        && users == old(users) + [r.value]
        && nextUserId == old(nextUserId) + 1
    {
      if username.None? || username.value == "" {
        return Failure(UsernameRequired);
      }
      if username.value in Usernames() {
        return Failure(UsernameTaken);
      }
      var u := NewUser(nextUserId, username.value, password, extra);
      users := users + [u];
      nextUserId := nextUserId + 1;
      r := Success(u);
    }

    /** `CustomUserManager.create_superuser`: `create_user` with `is_admin` and `is_staff`
        defaulting to true. */
    method CreateSuperuser(username: Option<string>, password: Option<string>, extra: ExtraFields)
      returns (r: Result<User, UserError>)
      requires Valid()
      modifies this
      ensures Valid()
      ensures (username.None? || username.value == "") ==>
        r == Failure(UsernameRequired) && users == old(users) && nextUserId == old(nextUserId)
      ensures username.Some? && username.value != "" && username.value in old(Usernames()) ==>
        r == Failure(UsernameTaken) && users == old(users) && nextUserId == old(nextUserId)
      ensures username.Some? && username.value != "" && username.value !in old(Usernames()) ==>
        && r == Success(NewUser(old(nextUserId), username.value, password, SuperuserFields(extra)))
        && users == old(users) + [r.value]
        && nextUserId == old(nextUserId) + 1
      ensures r.Success? && extra.isAdmin.None? ==> r.value.isAdmin
      ensures r.Success? && extra.isStaff.None? ==> r.value.isStaff
    {
      r := CreateUser(username, password, SuperuserFields(extra));
    }
  }
}
