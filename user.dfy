/** The user directory (user.py): users in the order they were added, each
    with an id drawn from the shared counter, written to storage in full
    after every addition. */
module UserDirectory {
  import opened Wrappers
  import opened Models

  /** The counter value behind a user's id, or -1 for an id not of the `LIB_USER_<n>` shape. */
  function IdNumber(u: User): int {
    match UserNumber(u.userId)
    case Some(n) => n
    case None => -1
  }

  /** The ids were drawn from a counter now at `last`, in list order. */
  predicate IdsFromCounter(users: seq<User>, last: nat) {
    && (forall k :: 0 <= k < |users| ==> 1 <= IdNumber(users[k]) <= last)
    && (forall i, j :: 0 <= i < j < |users| ==> IdNumber(users[i]) < IdNumber(users[j]))
  }

  /** Ids drawn this way are pairwise distinct. */
  lemma IdsDistinct(users: seq<User>, last: nat)
    requires IdsFromCounter(users, last)
    ensures forall i, j :: 0 <= i < j < |users| ==> users[i].userId != users[j].userId
  {
  }

  /** `[user.to_dict() for user in users]` */
  function UserRecords(users: seq<User>): (rs: seq<UserRecord>)
    ensures |rs| == |users|
  {
    seq(|users|, k requires 0 <= k < |users| => users[k].ToRecord())
  }

  /** `[User.from_dict(item) for item in data]`: since every `from_dict` raises,
      the comprehension raises at its first record. */
  function UsersFromRecords(rs: seq<UserRecord>): (r: Result<seq<User>, UserError>)
    ensures r.Ok? <==> rs == []
  {
    if rs == [] then Ok([]) else Err(UserFromRecord(rs[0]).error)
  }

  class UserManager {
    /** The process-wide counter, shared with every other construction of a user. */
    const counter: UserCounter
    var users: seq<User>
    /** The list of records last written to storage by this directory, if any. */
    var saved: Option<seq<UserRecord>>

    ghost predicate Valid()
      reads this, counter
    {
      IdsFromCounter(users, counter.lastUserNumber)
    }

    constructor (counter: UserCounter)
      ensures Valid() && this.counter == counter && users == [] && saved == None
    {
      this.counter := counter;
      users := [];
      saved := None;
    }

    /** `add_user`: the name is taken as it is, the id comes from the counter,
        and the whole list is saved. */
    method AddUser(name: string)
      requires Valid()
      modifies this, counter
      ensures Valid()
      ensures counter.lastUserNumber == old(counter.lastUserNumber) + 1
      ensures users == old(users) + [User(name, UserId(counter.lastUserNumber))]
      ensures forall k :: 0 <= k < |old(users)| ==> IdNumber(old(users)[k]) < IdNumber(users[|users| - 1])
      ensures saved == Some(UserRecords(users))
    {
      var u := counter.NewUser(name);
      UserIdNumber(counter.lastUserNumber);
      users := users + [u];
      SaveUsers();
    }

    /** `_save_users`: overwrite storage with the whole list. */
    method SaveUsers()
      modifies this
      ensures users == old(users) && saved == Some(UserRecords(users))
    {
      saved := Some(UserRecords(users));
    }

    /** `load_users`: missing or empty data leaves the list as it is; any other
        data raises, since no stored user can be rebuilt.  The counter is never
        touched. */
    method LoadUsers(data: Option<seq<UserRecord>>) returns (r: Outcome<UserError>)
      modifies this
      ensures r.Pass? <==> data.None? || data.value == []
      ensures users == old(users) && saved == old(saved)
    {
      if data.None? || data.value == [] {
        return Pass;
      }
      // Non-empty data always raises, so the replacement of the list is never reached.
      var loaded := UsersFromRecords(data.value);
      return Fail(loaded.error);
    }
  }
}
