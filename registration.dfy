/** Handle registration and the admin rule (identify_handle, set_handle,
    remove_handle and has_admin_privilege in main.py). Each command's checks
    are a decision on the stored rows and the judge's answers, taken in the
    source's order; the command then applies it to the store. The Discord
    replies are the outcome values; the random challenge, the 30-second wait
    and the judge's answers are parameters. */
module Registration {
  import opened Common
  import opened Store
  import opened JudgeClient

  /** The role that grants the admin commands besides `manage_guild`. */
  const ManagerRole := "POTD Manager"

  function LowerAll(names: seq<string>): (r: seq<string>)
    ensures |r| == |names| && forall i :: 0 <= i < |names| ==> r[i] == Lower(names[i])
  {
    seq(|names|, i requires 0 <= i < |names| => Lower(names[i]))
  }

  /** has_admin_privilege: `manage_guild`, or a role whose lower-cased name is
      "potd manager". */
  function HasAdminPrivilege(manageGuild: bool, roleNames: seq<string>): (r: bool)
    ensures r <==> manageGuild || exists i :: 0 <= i < |roleNames| && Lower(roleNames[i]) == "potd manager"
  {
    assert Lower(ManagerRole) == "potd manager";
    manageGuild || Lower(ManagerRole) in LowerAll(roleNames)
  }

  /** The role name is compared without regard to case. */
  lemma AdminRoleIgnoresCase()
    ensures HasAdminPrivilege(false, ["potd manager"])
    ensures HasAdminPrivilege(false, ["Member", "POTD MANAGER"])
    ensures !HasAdminPrivilege(false, ["Member", "POTD"])
  {
    var one, two := ["potd manager"], ["Member", "POTD MANAGER"];
    assert Lower(one[0]) == "potd manager";
    assert Lower(two[1]) == "potd manager";
    assert Lower("Member") != "potd manager" by {
      assert |Lower("Member")| == 6;
    }
    assert Lower("POTD") != "potd manager" by {
      assert |Lower("POTD")| == 4;
    }
  }

  /** `db.get_handle(guild, member)` is truthy: a row exists and its handle
      is not the empty string. */
  predicate HasHandle(rows: seq<HandleRow>, guild: int, discordId: int)
  {
    var h := FirstHandle(rows, guild, discordId);
    h.Some? && h.value != ""
  }

  /** The in-use test: some row of the guild already holds handle `h`. */
  function HandleHeld(rows: seq<HandleRow>, guild: int, h: string): (r: bool)
    ensures r <==> exists i :: 0 <= i < |rows| && rows[i].guild == guild && rows[i].cfHandle == h
  {
    var inGuild := Filter(rows, (x: HandleRow) => x.guild == guild);
    var holders := Filter(inGuild, (x: HandleRow) => x.cfHandle == h);
    assert holders != [] <==> exists x :: x in rows && x.guild == guild && x.cfHandle == h by {
      if holders != [] {
        assert holders[0] in holders;
      }
    }
    holders != []
  }

  /** What a command reports; `Crashed` is an exception that leaves the
      command before it replies. */
  datatype CommandResult =
    | MissingArgument
    | NotAdmin
    | AlreadyRegistered(existing: string)
    | LookupFailed(message: string)
    | HandleInUse
    | VerificationFailed
    | Registered(handle: string, rating: int, rank: string)
    | Crashed(error: string)

  /** The rating and rank shown for a user; the judge omits both for an
      unrated user. */
  function RatingOf(s: Standing): int
  {
    if s.Rated? then s.rating else 0
  }

  function RankOf(s: Standing): string
  {
    if s.Rated? then s.rank else "unrated"
  }

  /** The registration a successful command makes for `user`. */
  function RegisteredAs(user: UserInfo): CommandResult
  {
    Registered(user.handle, RatingOf(user.standing), RankOf(user.standing))
  }

  /** identify_handle's checks, in order: the argument, an existing handle
      for the author, the judge lookup, the canonical handle in use in the
      guild, and the challenge in the first name read back afterwards. */
  function IdentifyDecision(rows: seq<HandleRow>, guild: int, author: int, handle: Option<string>,
                            lookup: Option<Envelope<seq<UserInfo>>>, challenge: string,
                            nameResponse: Option<Envelope<seq<UserInfo>>>): (r: CommandResult)
    requires CheckableUserInfo(lookup)
    ensures r.Registered? <==>
      && handle.Some?
      && !HasHandle(rows, guild, author)
      && CheckHandle(lookup).Fetched?
      && !HandleHeld(rows, guild, CheckHandle(lookup).value.handle)
      && GetFirstName(nameResponse) == Returns(Some(challenge))
    ensures r.Crashed? <==>
      && handle.Some?
      && !HasHandle(rows, guild, author)
      && CheckHandle(lookup).Fetched?
      && !HandleHeld(rows, guild, CheckHandle(lookup).value.handle)
      && GetFirstName(nameResponse).Raises?
    ensures r.Crashed? ==> r.error == GetFirstName(nameResponse).error
    ensures r.Registered? ==> r == RegisteredAs(CheckHandle(lookup).value)
    ensures r.Registered? && CheckHandle(lookup).value.standing.Unrated? ==> r.rating == 0 && r.rank == "unrated"
    ensures r == MissingArgument <==> handle.None?
    ensures handle.Some? && HasHandle(rows, guild, author) ==> r == AlreadyRegistered(FirstHandle(rows, guild, author).value)
    ensures r.AlreadyRegistered? ==> handle.Some? && HasHandle(rows, guild, author)
    ensures r.LookupFailed? <==> handle.Some? && !HasHandle(rows, guild, author) && CheckHandle(lookup).FetchFailed?
    ensures r.LookupFailed? ==> r.message == CheckHandle(lookup).message
    ensures r == HandleInUse <==>
      && handle.Some?
      && !HasHandle(rows, guild, author)
      && CheckHandle(lookup).Fetched?
      && HandleHeld(rows, guild, CheckHandle(lookup).value.handle)
    ensures r == VerificationFailed <==>
      && handle.Some?
      && !HasHandle(rows, guild, author)
      && CheckHandle(lookup).Fetched?
      && !HandleHeld(rows, guild, CheckHandle(lookup).value.handle)
      && GetFirstName(nameResponse).Returns? && GetFirstName(nameResponse).value != Some(challenge)
    ensures !r.NotAdmin?
  {
    if handle.None? then MissingArgument
    else if HasHandle(rows, guild, author) then AlreadyRegistered(FirstHandle(rows, guild, author).value)
    else
      var data := CheckHandle(lookup);
      if data.FetchFailed? then LookupFailed(data.message)
      else if HandleHeld(rows, guild, data.value.handle) then HandleInUse
      else
        var name := GetFirstName(nameResponse);
        if name.Raises? then Crashed(name.error)
        else if name.value != Some(challenge) then VerificationFailed
        else RegisteredAs(data.value)
  }

  /** A member who passed every check but whose first-name read-back was
      throttled five times over HTTP 503 is not refused: the command raises
      KeyError and nothing is stored. */
  lemma ThrottledReadBackCrashesIdentify(rows: seq<HandleRow>, guild: int, author: int, handle: string,
                                         lookup: Option<Envelope<seq<UserInfo>>>, challenge: string,
                                         replies: seq<Reply<seq<UserInfo>>>)
    requires CheckableUserInfo(lookup)
    requires !HasHandle(rows, guild, author)
    requires CheckHandle(lookup).Fetched? && !HandleHeld(rows, guild, CheckHandle(lookup).value.handle)
    requires MaxAttempts <= |replies|
    requires forall j :: 0 <= j < MaxAttempts ==> replies[j].ServiceUnavailable?
    ensures IdentifyDecision(rows, guild, author, Some(handle), lookup, challenge, Outcome(replies, 0)) == Crashed(MissingResult)
  {
    ThrottledReadBackRaises(replies);
  }

  /** set_handle's checks, in order: both arguments, the caller's privilege,
      the judge lookup, an existing handle for the member, and the canonical
      handle in use in the guild. There is no first-name challenge. */
  function SetHandleDecision(rows: seq<HandleRow>, guild: int, member: Option<int>, handle: Option<string>,
                             isAdmin: bool, lookup: Option<Envelope<seq<UserInfo>>>): (r: CommandResult)
    requires CheckableUserInfo(lookup)
    ensures r.Registered? <==>
      && handle.Some? && member.Some?
      && isAdmin
      && CheckHandle(lookup).Fetched?
      && !HasHandle(rows, guild, member.value)
      && !HandleHeld(rows, guild, CheckHandle(lookup).value.handle)
    ensures r.Registered? ==> r == RegisteredAs(CheckHandle(lookup).value)
    ensures r.Registered? && CheckHandle(lookup).value.standing.Unrated? ==> r.rating == 0 && r.rank == "unrated"
    ensures r == MissingArgument <==> handle.None? || member.None?
    ensures r == NotAdmin <==> handle.Some? && member.Some? && !isAdmin
    ensures r.LookupFailed? <==> handle.Some? && member.Some? && isAdmin && CheckHandle(lookup).FetchFailed?
    ensures r.LookupFailed? ==> r.message == CheckHandle(lookup).message
    ensures r.AlreadyRegistered? <==>
      && handle.Some? && member.Some? && isAdmin
      && CheckHandle(lookup).Fetched?
      && HasHandle(rows, guild, member.value)
    ensures r.AlreadyRegistered? ==> r.existing == FirstHandle(rows, guild, member.value).value
    ensures r == HandleInUse <==>
      && handle.Some? && member.Some? && isAdmin
      && CheckHandle(lookup).Fetched?
      && !HasHandle(rows, guild, member.value)
      && HandleHeld(rows, guild, CheckHandle(lookup).value.handle)
    ensures !r.VerificationFailed? && !r.Crashed?
  {
    if handle.None? || member.None? then MissingArgument
    else if !isAdmin then NotAdmin
    else
      var data := CheckHandle(lookup);
      if data.FetchFailed? then LookupFailed(data.message)
      else if HasHandle(rows, guild, member.value) then AlreadyRegistered(FirstHandle(rows, guild, member.value).value)
      else if HandleHeld(rows, guild, data.value.handle) then HandleInUse
      else RegisteredAs(data.value)
  }

  /** identify_handle for `author` in `guild`: a registration adds the row. */
  method IdentifyHandle(db: Database, guild: int, author: int, handle: Option<string>,
                        lookup: Option<Envelope<seq<UserInfo>>>, challenge: string,
                        nameResponse: Option<Envelope<seq<UserInfo>>>) returns (outcome: CommandResult)
    requires db.Valid() && CheckableUserInfo(lookup)
    modifies db
    ensures db.Valid()
    ensures outcome == IdentifyDecision(old(db.handles), guild, author, handle, lookup, challenge, nameResponse)
    ensures outcome.Registered? ==>
      db.handles == old(db.handles) + [HandleRow(guild, author, outcome.handle, outcome.rating, NoFlags(|db.columns|))]
    ensures !outcome.Registered? ==> db.handles == old(db.handles)
    ensures db.columns == old(db.columns) && db.problems == old(db.problems)
    ensures db.contests == old(db.contests) && db.potds == old(db.potds)
  {
    outcome := IdentifyDecision(db.handles, guild, author, handle, lookup, challenge, nameResponse);
    if outcome.Registered? {
      db.AddHandle(guild, author, outcome.handle, outcome.rating);
    }
  }

  /** set_handle for `member` in `guild`, called by an admin or not. */
  method SetHandle(db: Database, guild: int, member: Option<int>, handle: Option<string>,
                   isAdmin: bool, lookup: Option<Envelope<seq<UserInfo>>>) returns (outcome: CommandResult)
    requires db.Valid() && CheckableUserInfo(lookup)
    modifies db
    ensures db.Valid()
    ensures outcome == SetHandleDecision(old(db.handles), guild, member, handle, isAdmin, lookup)
    ensures outcome.Registered? ==>
      db.handles == old(db.handles) + [HandleRow(guild, member.value, outcome.handle, outcome.rating, NoFlags(|db.columns|))]
    ensures !outcome.Registered? ==> db.handles == old(db.handles)
    ensures db.columns == old(db.columns) && db.problems == old(db.problems)
    ensures db.contests == old(db.contests) && db.potds == old(db.potds)
  {
    outcome := SetHandleDecision(db.handles, guild, member, handle, isAdmin, lookup);
    if outcome.Registered? {
      db.AddHandle(guild, member.value, outcome.handle, outcome.rating);
    }
  }

  /** Within a guild no member has two rows and no handle is held twice. */
  predicate GuildUnique(rows: seq<HandleRow>, guild: int)
  {
    forall i, j :: 0 <= i < j < |rows| && rows[i].guild == guild && rows[j].guild == guild ==>
      rows[i].discordId != rows[j].discordId && rows[i].cfHandle != rows[j].cfHandle
  }

  /** Every stored handle is a non-empty string. */
  predicate HandlesNonEmpty(rows: seq<HandleRow>)
  {
    forall i :: 0 <= i < |rows| ==> rows[i].cfHandle != ""
  }

  /** A row for a member without a handle, holding a handle nobody in the
      guild holds, keeps the guild free of duplicates. */
  lemma AdmittedRowKeepsGuildUnique(rows: seq<HandleRow>, row: HandleRow)
    requires GuildUnique(rows, row.guild) && HandlesNonEmpty(rows)
    requires !HasHandle(rows, row.guild, row.discordId)
    requires !HandleHeld(rows, row.guild, row.cfHandle)
    ensures GuildUnique(rows + [row], row.guild)
  {
    forall i | 0 <= i < |rows| && rows[i].guild == row.guild ensures rows[i].discordId != row.discordId {
      if rows[i].discordId == row.discordId {
        assert Owns(rows[i], row.guild, row.discordId);
      }
    }
    var all := rows + [row];
    forall i, j | 0 <= i < j < |all| && all[i].guild == row.guild && all[j].guild == row.guild
      ensures all[i].discordId != all[j].discordId && all[i].cfHandle != all[j].cfHandle
    {
      if j == |rows| {
        assert all[i] == rows[i];
      } else {
        assert all[i] == rows[i] && all[j] == rows[j];
      }
    }
  }

  /** One identify_handle run, taken alone, never makes a member hold two
      handles in a guild, nor two members share a handle there. Commands that
      run during its waits are not covered. */
  lemma IdentifyKeepsGuildUnique(rows: seq<HandleRow>, guild: int, author: int, handle: Option<string>,
                                 lookup: Option<Envelope<seq<UserInfo>>>, challenge: string,
                                 nameResponse: Option<Envelope<seq<UserInfo>>>, flags: seq<bool>)
    requires GuildUnique(rows, guild) && HandlesNonEmpty(rows)
    requires CheckableUserInfo(lookup)
    requires IdentifyDecision(rows, guild, author, handle, lookup, challenge, nameResponse).Registered?
    ensures var r := IdentifyDecision(rows, guild, author, handle, lookup, challenge, nameResponse);
      GuildUnique(rows + [HandleRow(guild, author, r.handle, r.rating, flags)], guild)
  {
    var r := IdentifyDecision(rows, guild, author, handle, lookup, challenge, nameResponse);
    AdmittedRowKeepsGuildUnique(rows, HandleRow(guild, author, r.handle, r.rating, flags));
  }

  /** The same for set_handle. */
  lemma SetHandleKeepsGuildUnique(rows: seq<HandleRow>, guild: int, member: Option<int>, handle: Option<string>,
                                  isAdmin: bool, lookup: Option<Envelope<seq<UserInfo>>>, flags: seq<bool>)
    requires GuildUnique(rows, guild) && HandlesNonEmpty(rows)
    requires CheckableUserInfo(lookup)
    requires SetHandleDecision(rows, guild, member, handle, isAdmin, lookup).Registered?
    ensures var r := SetHandleDecision(rows, guild, member, handle, isAdmin, lookup);
      GuildUnique(rows + [HandleRow(guild, member.value, r.handle, r.rating, flags)], guild)
  {
    var r := SetHandleDecision(rows, guild, member, handle, isAdmin, lookup);
    AdmittedRowKeepsGuildUnique(rows, HandleRow(guild, member.value, r.handle, r.rating, flags));
  }

  datatype Removal =
    | Denied(askedForMember: bool)
    | NotSet
    | Removed

  /** remove_handle: a missing member is reported and the command goes on; a
      caller without the privilege is refused; an admin naming no member makes
      the source fail reading `member.id`, which the precondition excludes. */
  method RemoveHandleCommand(db: Database, guild: int, member: Option<int>, isAdmin: bool) returns (outcome: Removal)
    requires db.Valid()
    requires member.Some? || !isAdmin
    modifies db
    ensures db.Valid()
    ensures !isAdmin ==> outcome == Denied(member.None?) && db.handles == old(db.handles)
    ensures isAdmin && !HasHandle(old(db.handles), guild, member.value) ==> outcome == NotSet && db.handles == old(db.handles)
    ensures isAdmin && HasHandle(old(db.handles), guild, member.value) ==>
      && outcome == Removed
      && db.handles == Filter(old(db.handles), (x: HandleRow) => !Owns(x, guild, member.value))
      && db.GetHandle(guild, member.value).None?
    ensures db.columns == old(db.columns) && db.problems == old(db.problems)
    ensures db.contests == old(db.contests) && db.potds == old(db.potds)
  {
    if !isAdmin {
      return Denied(member.None?);
    }
    var existing := db.GetHandle(guild, member.value);
    if !(existing.Some? && existing.value != "") {
      return NotSet;
    }
    db.RemoveHandle(guild, member.value);
    outcome := Removed;
  }
}
