/** The relational store of database.py, held in memory: four tables as
    sequences of rows, in insertion order. The per-day `solved_<date>` columns
    of the handles table are the `columns` field (their dates, in the order
    they were added) together with a `solved` flag sequence in every handle
    row, aligned with `columns` by position. Connections, cursors and the
    table DDL are outside the model. */
module Store {
  import opened Common

  /** A calendar date, as a day number. */
  type Date = int

  datatype HandleRow = HandleRow(guild: int, discordId: int, cfHandle: string, rating: int, solved: seq<bool>)

  /** A row of the problems table; `rank` holds the problem's index in its contest. */
  datatype ProblemRow = ProblemRow(id: int, rank: string, name: string, kind: string,
                                   rating: int, tags: Option<string>, used: bool)

  /** The record get_problems returns: a problem row without its tags. */
  datatype Problem = Problem(id: int, rank: string, name: string, kind: string, rating: int, used: bool)

  datatype ContestRow = ContestRow(id: int, name: string)

  datatype PotdRow = PotdRow(id: int, rank: string, name: string, useDate: Date)

  /** The record get_potd returns. main.py reads it as `.index`; the field
      that holds the problem index is `rank`, which is what the model uses. */
  datatype Potd = Potd(id: int, rank: string, name: string)

  function ProblemView(row: ProblemRow): Problem
  {
    Problem(row.id, row.rank, row.name, row.kind, row.rating, row.used)
  }

  function PotdView(row: PotdRow): Potd
  {
    Potd(row.id, row.rank, row.name)
  }

  predicate Owns(row: HandleRow, guild: int, discordId: int)
  {
    row.guild == guild && row.discordId == discordId
  }

  // ---------------------------------------------------------------------
  // Queries on the tables

  /** Position of the first row of that member, or |rows| when there is none. */
  function FirstOwned(rows: seq<HandleRow>, guild: int, discordId: int): (i: nat)
    ensures i <= |rows|
    ensures i < |rows| ==> Owns(rows[i], guild, discordId)
    ensures forall j :: 0 <= j < i ==> !Owns(rows[j], guild, discordId)
  {
    if rows == [] || Owns(rows[0], guild, discordId) then 0
    else 1 + FirstOwned(rows[1..], guild, discordId)
  }

  /** `SELECT cf_handle ... WHERE guild = g AND discord_id = d`, first row. */
  function FirstHandle(rows: seq<HandleRow>, guild: int, discordId: int): (r: Option<string>)
    ensures r.None? <==> forall i :: 0 <= i < |rows| ==> !Owns(rows[i], guild, discordId)
    ensures r.Some? ==> exists i :: 0 <= i < |rows| && Owns(rows[i], guild, discordId) && rows[i].cfHandle == r.value
                                    && forall j :: 0 <= j < i ==> !Owns(rows[j], guild, discordId)
  {
    var i := FirstOwned(rows, guild, discordId);
    if i < |rows| then Some(rows[i].cfHandle) else None
  }

  /** Position of the first row holding handle `h` (`fetchone`). */
  function FirstWithHandle(rows: seq<HandleRow>, h: string): (i: nat)
    requires exists k :: 0 <= k < |rows| && rows[k].cfHandle == h
    ensures i < |rows| && rows[i].cfHandle == h
    ensures forall j :: 0 <= j < i ==> rows[j].cfHandle != h
  {
    if rows[0].cfHandle == h then 0
    else
      var k :| 0 <= k < |rows| && rows[k].cfHandle == h;
      assert rows[1..][k - 1].cfHandle == h;
      1 + FirstWithHandle(rows[1..], h)
  }

  predicate HoldsHandle(rows: seq<HandleRow>, h: string)
  {
    exists k :: 0 <= k < |rows| && rows[k].cfHandle == h
  }

  /** check_user_potd: the last column of the first row with handle `h`. */
  function LastFlagOf(rows: seq<HandleRow>, h: string): bool
    requires HoldsHandle(rows, h)
    requires forall k :: 0 <= k < |rows| ==> |rows[k].solved| > 0
  {
    Last(rows[FirstWithHandle(rows, h)].solved)
  }

  /** The position of a date among the columns. */
  function ColumnIndex(columns: seq<Date>, day: Date): (i: nat)
    requires day in columns
    ensures i < |columns| && columns[i] == day
    ensures forall j :: 0 <= j < i ==> columns[j] != day
  {
    if columns[0] == day then 0 else 1 + ColumnIndex(columns[1..], day)
  }

  /** Position of the last row dated `day`, or -1 when there is none. */
  function LastOn(rows: seq<PotdRow>, day: Date): (i: int)
    ensures -1 <= i < |rows|
    ensures i >= 0 ==> rows[i].useDate == day
    ensures forall j :: i < j < |rows| ==> rows[j].useDate != day
  {
    if rows == [] then -1
    else if Last(rows).useDate == day then |rows| - 1
    else LastOn(rows[..|rows| - 1], day)
  }

  /** `SELECT * FROM potds WHERE use_date = day`, last row. */
  function LastPotdOn(rows: seq<PotdRow>, day: Date): (r: Option<Potd>)
    ensures r.None? <==> forall i :: 0 <= i < |rows| ==> rows[i].useDate != day
    ensures r.Some? ==> exists i :: 0 <= i < |rows| && rows[i].useDate == day && r.value == PotdView(rows[i])
                                    && forall j :: i < j < |rows| ==> rows[j].useDate != day
  {
    var i := LastOn(rows, day);
    if i < 0 then None else Some(PotdView(rows[i]))
  }

  /** `id.split('/')[0]` and `id.split('/')[1]`. */
  function SplitKey(key: string): (parts: (string, string))
    requires '/' in key
    ensures '/' !in parts.0 && '/' !in parts.1
    ensures |parts.0| + 1 + |parts.1| <= |key|
    ensures key[..|parts.0| + 1] == parts.0 + "/"
    ensures key[|parts.0| + 1..|parts.0| + 1 + |parts.1|] == parts.1
    ensures |parts.0| + 1 + |parts.1| == |key| || key[|parts.0| + 1 + |parts.1|] == '/'
  {
    var cut := IndexOf(key, '/');
    var rest := key[cut + 1..];
    assert key[..cut + 1] == key[..cut] + "/";
    if '/' in rest then
      var second := rest[..IndexOf(rest, '/')];
      assert key[cut + 1..cut + 1 + |second|] == second;
      (key[..cut], second)
    else
      assert key[cut + 1..cut + 1 + |rest|] == rest;
      (key[..cut], rest)
  }

  function IndexOf(s: string, c: char): (i: nat)
    requires c in s
    ensures i < |s| && s[i] == c && c !in s[..i]
  {
    if s[0] == c then 0
    else
      var i := 1 + IndexOf(s[1..], c);
      assert s[..i] == [s[0]] + s[1..][..i - 1];
      i
  }

  /** The WHERE clause `id = %s AND rank = %s` with the two halves of the key.
      The id column is compared with the decimal rendering of the row's id. */
  predicate MatchesKey(row: ProblemRow, parts: (string, string))
  {
    IntToString(row.id) == parts.0 && row.rank == parts.1
  }

  function ProblemViews(rows: seq<ProblemRow>): (r: seq<Problem>)
    ensures |r| == |rows|
    ensures forall i :: 0 <= i < |rows| ==> r[i] == ProblemView(rows[i])
  {
    seq(|rows|, i requires 0 <= i < |rows| => ProblemView(rows[i]))
  }

  // ---------------------------------------------------------------------
  // Updates of the tables

  function NoFlags(n: nat): (s: seq<bool>)
    ensures |s| == n && forall i :: 0 <= i < n ==> !s[i]
  {
    seq(n, _ => false)
  }

  /** `ALTER TABLE handles ADD solved_<date> BOOL DEFAULT 0` on the rows. */
  function AddFlagColumn(rows: seq<HandleRow>): (r: seq<HandleRow>)
    ensures |r| == |rows|
    ensures forall i :: 0 <= i < |rows| ==> r[i] == rows[i].(solved := rows[i].solved + [false])
  {
    seq(|rows|, i requires 0 <= i < |rows| => rows[i].(solved := rows[i].solved + [false]))
  }

  /** `UPDATE handles SET <column col> = true WHERE cf_handle = h` */
  function MarkSolved(rows: seq<HandleRow>, h: string, col: nat): (r: seq<HandleRow>)
    requires forall k :: 0 <= k < |rows| ==> col < |rows[k].solved|
    ensures |r| == |rows|
    ensures forall i :: 0 <= i < |rows| ==>
      r[i] == if rows[i].cfHandle == h then rows[i].(solved := rows[i].solved[col := true]) else rows[i]
  {
    seq(|rows|, i requires 0 <= i < |rows| =>
      if rows[i].cfHandle == h then rows[i].(solved := rows[i].solved[col := true]) else rows[i])
  }

  /** `UPDATE problems SET used = True WHERE id = .. AND rank = .. AND name = ..` */
  function MarkUsed(rows: seq<ProblemRow>, id: int, rank: string, name: string): (r: seq<ProblemRow>)
    ensures |r| == |rows|
    ensures forall i :: 0 <= i < |rows| ==>
      r[i] == if rows[i].id == id && rows[i].rank == rank && rows[i].name == name then rows[i].(used := true) else rows[i]
  {
    seq(|rows|, i requires 0 <= i < |rows| =>
      if rows[i].id == id && rows[i].rank == rank && rows[i].name == name then rows[i].(used := true) else rows[i])
  }

  /** Marking a problem used never clears a flag, and changes nothing but flags. */
  lemma MarkUsedOnlyRaises(rows: seq<ProblemRow>, id: int, rank: string, name: string)
    ensures forall i :: 0 <= i < |rows| ==> rows[i].used ==> MarkUsed(rows, id, rank, name)[i].used
    ensures forall i :: 0 <= i < |rows| ==> MarkUsed(rows, id, rank, name)[i].(used := rows[i].used) == rows[i]
  {
  }

  /** The invariant of the flag columns: every handle row has one flag per
      column, no date names two columns (the ALTER TABLE of a second column
      with the same name fails), and every POTD date has its column. */
  ghost predicate Consistent(handles: seq<HandleRow>, columns: seq<Date>, potds: seq<PotdRow>)
  {
    && (forall r :: r in handles ==> |r.solved| == |columns|)
    && (forall i, j :: 0 <= i < j < |columns| ==> columns[i] != columns[j])
    && (forall i :: 0 <= i < |potds| ==> potds[i].useDate in columns)
  }

  class Database {
    var handles: seq<HandleRow>
    var columns: seq<Date>
    var problems: seq<ProblemRow>
    var contests: seq<ContestRow>
    var potds: seq<PotdRow>

    ghost predicate Valid()
      reads this
    {
      Consistent(handles, columns, potds)
    }

    /** A store whose four tables are empty. */
    constructor ()
      ensures Valid()
      ensures handles == [] && columns == [] && problems == [] && contests == [] && potds == []
    {
      handles, columns, problems, contests, potds := [], [], [], [], [];
    }

    function GetHandle(guild: int, discordId: int): (r: Option<string>)
      reads this
      ensures r.None? <==> forall i :: 0 <= i < |handles| ==> !Owns(handles[i], guild, discordId)
      ensures r.Some? ==> exists i :: 0 <= i < |handles| && Owns(handles[i], guild, discordId) && handles[i].cfHandle == r.value
    {
      FirstHandle(handles, guild, discordId)
    }

    /** The new row gets a false flag in every existing column. */
    method AddHandle(guild: int, discordId: int, cfHandle: string, rating: int)
      requires Valid()
      modifies this
      ensures Valid()
      ensures handles == old(handles) + [HandleRow(guild, discordId, cfHandle, rating, NoFlags(|columns|))]
      ensures columns == old(columns) && problems == old(problems) && contests == old(contests) && potds == old(potds)
      ensures old(GetHandle(guild, discordId)).None? ==> GetHandle(guild, discordId) == Some(cfHandle)
    {
      handles := handles + [HandleRow(guild, discordId, cfHandle, rating, NoFlags(|columns|))];
      assert old(GetHandle(guild, discordId)).None? ==> FirstHandle(handles, guild, discordId) == Some(cfHandle) by {
        if old(GetHandle(guild, discordId)).None? {
          AddHandleThenGet(old(handles), HandleRow(guild, discordId, cfHandle, rating, NoFlags(|columns|)));
        }
      }
    }

    /** get_all_handles(guild), or every row when no guild is given. */
    function GetAllHandles(guild: Option<int>): (r: seq<HandleRow>)
      reads this
      ensures forall x :: x in r <==> x in handles && (guild.None? || x.guild == guild.value)
      ensures guild.None? ==> r == handles
    {
      if guild.None? then handles else Filter(handles, (x: HandleRow) => x.guild == guild.value)
    }

    /** `DELETE FROM handles WHERE guild = g AND discord_id = d` */
    method RemoveHandle(guild: int, discordId: int)
      requires Valid()
      modifies this
      ensures Valid()
      ensures handles == Filter(old(handles), (x: HandleRow) => !Owns(x, guild, discordId))
      ensures GetHandle(guild, discordId).None?
      ensures columns == old(columns) && problems == old(problems) && contests == old(contests) && potds == old(potds)
    {
      handles := Filter(handles, (x: HandleRow) => !Owns(x, guild, discordId));
      RemoveKeepsOthers(old(handles), guild, discordId);
    }

    /** get_problems(): every problem; get_problems("<contest>/<index>"):
        those with that contest id and index. An empty key counts as none. */
    function GetProblems(key: Option<string>): (r: seq<Problem>)
      reads this
      requires key.Some? && key.value != "" ==> '/' in key.value
      ensures key.None? || key.value == "" ==> r == ProblemViews(problems)
      ensures key.Some? && key.value != "" ==> forall p :: p in r <==>
        exists row :: row in problems && MatchesKey(row, SplitKey(key.value)) && ProblemView(row) == p
    {
      if key.None? || key.value == "" then ProblemViews(problems)
      else
        var parts := SplitKey(key.value);
        var rows := Filter(problems, (row: ProblemRow) => MatchesKey(row, parts));
        var r := ProblemViews(rows);
        assert forall p :: p in r <==> exists row :: row in rows && ProblemView(row) == p by {
          forall p ensures p in r <==> exists row :: row in rows && ProblemView(row) == p {
            if p in r {
              var i :| 0 <= i < |r| && r[i] == p;
              assert rows[i] in rows;
            }
            if exists row :: row in rows && ProblemView(row) == p {
              var row :| row in rows && ProblemView(row) == p;
              var i :| 0 <= i < |rows| && rows[i] == row;
              assert r[i] == p;
            }
          }
        }
        r
    }

    function GetContestsId(): (ids: seq<int>)
      reads this
      ensures |ids| == |contests| && forall i :: 0 <= i < |contests| ==> ids[i] == contests[i].id
    {
      seq(|contests|, i requires 0 <= i < |contests| reads this => contests[i].id)
    }

    method AddProblem(id: int, rank: string, name: string, kind: string, rating: int, used: bool)
      requires Valid()
      modifies this
      ensures Valid()
      ensures problems == old(problems) + [ProblemRow(id, rank, name, kind, rating, None, used)]
      ensures handles == old(handles) && columns == old(columns) && contests == old(contests) && potds == old(potds)
    {
      problems := problems + [ProblemRow(id, rank, name, kind, rating, None, used)];
    }

    method AddContest(id: int, name: string)
      requires Valid()
      modifies this
      ensures Valid()
      ensures contests == old(contests) + [ContestRow(id, name)]
      ensures handles == old(handles) && columns == old(columns) && problems == old(problems) && potds == old(potds)
    {
      contests := contests + [ContestRow(id, name)];
    }

    /** add_potd: a new false flag column for `today` on every handle row, then
        the POTD row. A second call on the same day fails at the ALTER TABLE. */
    method AddPotd(id: int, rank: string, name: string, today: Date)
      requires Valid()
      requires today !in columns
      modifies this
      ensures Valid()
      ensures columns == old(columns) + [today]
      ensures handles == AddFlagColumn(old(handles))
      ensures potds == old(potds) + [PotdRow(id, rank, name, today)]
      ensures problems == old(problems) && contests == old(contests)
      ensures GetPotd(today) == Some(Potd(id, rank, name))
    {
      handles := AddFlagColumn(handles);
      columns := columns + [today];
      potds := potds + [PotdRow(id, rank, name, today)];
    }

    /** get_potd: the last POTD row dated today, if any. */
    function GetPotd(today: Date): (r: Option<Potd>)
      reads this
      ensures r.None? <==> forall i :: 0 <= i < |potds| ==> potds[i].useDate != today
      ensures r.Some? ==> exists i :: 0 <= i < |potds| && potds[i].useDate == today && r.value == PotdView(potds[i])
                                      && forall j :: i < j < |potds| ==> potds[j].useDate != today
    {
      LastPotdOn(potds, today)
    }

    /** check_user_potd: the newest flag of the first row with that handle. */
    function CheckUserPotd(h: string): (solved: bool)
      reads this
      requires Valid() && |columns| > 0 && HoldsHandle(handles, h)
      ensures exists i :: 0 <= i < |handles| && handles[i].cfHandle == h && solved == handles[i].solved[|columns| - 1]
                          && forall j :: 0 <= j < i ==> handles[j].cfHandle != h
    {
      LastFlagOf(handles, h)
    }

    /** set_user_potd: today's flag goes to true on every row with handle `h`. */
    method SetUserPotd(h: string, today: Date)
      requires Valid() && today in columns
      modifies this
      ensures Valid()
      ensures columns == old(columns) && problems == old(problems) && contests == old(contests) && potds == old(potds)
      ensures handles == MarkSolved(old(handles), h, ColumnIndex(old(columns), today))
    {
      handles := MarkSolved(handles, h, ColumnIndex(columns, today));
    }

    /** set_used: `used` becomes true on the rows with that id, index and name. */
    method SetUsed(id: int, rank: string, name: string)
      requires Valid()
      modifies this
      ensures Valid()
      ensures problems == MarkUsed(old(problems), id, rank, name)
      ensures forall i :: 0 <= i < |problems| ==> old(problems[i].used) ==> problems[i].used
      ensures handles == old(handles) && columns == old(columns) && contests == old(contests) && potds == old(potds)
    {
      problems := MarkUsed(problems, id, rank, name);
    }
  }

  /** Adding a row for a member who had none makes that row the answer. */
  lemma {:induction false} AddHandleThenGet(rows: seq<HandleRow>, row: HandleRow)
    requires FirstHandle(rows, row.guild, row.discordId).None?
    ensures FirstHandle(rows + [row], row.guild, row.discordId) == Some(row.cfHandle)
  {
    if rows != [] {
      assert (rows + [row])[1..] == rows[1..] + [row];
      AddHandleThenGet(rows[1..], row);
    }
  }

  /** Deleting a member's rows removes exactly those rows and keeps the others in order. */
  lemma RemoveKeepsOthers(rows: seq<HandleRow>, guild: int, discordId: int)
    ensures forall x :: x in Filter(rows, (y: HandleRow) => !Owns(y, guild, discordId)) <==> x in rows && !Owns(x, guild, discordId)
    ensures FirstHandle(Filter(rows, (y: HandleRow) => !Owns(y, guild, discordId)), guild, discordId).None?
  {
  }
}
