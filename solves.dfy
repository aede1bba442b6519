/** Solve tracking (check_solved and update_solvers in main.py): who solved
    today's problem, and setting each member's flag for the day. The judge's
    answer to `get_user_problems(handle, 50)` is given per handle as a value;
    the congratulation messages are the `announced` rows. */
module SolveTracking {
  import opened Common
  import opened Store
  import opened JudgeClient

  /** A submission that is an accepted solution of problem `index` of contest `id`. */
  predicate Accepted(s: Submission, id: int, index: string)
  {
    s.id == id && s.index == index && s.verdict == Some("OK")
  }

  /** The scan of check_solved over a fetched submission list. */
  function SolvedIn(subs: seq<Submission>, id: int, index: string): (r: bool)
    ensures r <==> exists i :: 0 <= i < |subs| && Accepted(subs[i], id, index)
  {
    if subs == [] then false
    else if Accepted(subs[0], id, index) then true
    else
      var r := SolvedIn(subs[1..], id, index);
      assert forall i :: 1 <= i < |subs| ==> subs[i] == subs[1..][i - 1];
      r
  }

  /** check_solved: a failed fetch counts as not solved. */
  function CheckSolved(fetched: Fetch<seq<Submission>>, id: int, index: string): (r: bool)
    ensures r <==> fetched.Fetched? && exists i :: 0 <= i < |fetched.value| && Accepted(fetched.value[i], id, index)
  {
    fetched.Fetched? && SolvedIn(fetched.value, id, index)
  }

  /** Whether the member holding handle `h` solved today's problem. */
  predicate SolvedToday(fetch: string -> Fetch<seq<Submission>>, potd: Potd, h: string)
  {
    CheckSolved(fetch(h), potd.id, potd.rank)
  }

  /** Every handle of `users` occurs in `rows`, and each row has column `col`. */
  predicate Sweepable(rows: seq<HandleRow>, users: seq<HandleRow>, col: nat)
  {
    && (forall k :: 0 <= k < |rows| ==> col < |rows[k].solved|)
    && (forall u :: u in users ==> HoldsHandle(rows, u.cfHandle))
  }

  lemma MarkSolvedKeepsShape(rows: seq<HandleRow>, h: string, col: nat, users: seq<HandleRow>)
    requires Sweepable(rows, users, col)
    ensures Sweepable(MarkSolved(rows, h, col), users, col)
    ensures forall k :: 0 <= k < |rows| ==> MarkSolved(rows, h, col)[k].cfHandle == rows[k].cfHandle
    ensures forall k :: 0 <= k < |rows| ==> |MarkSolved(rows, h, col)[k].solved| == |rows[k].solved|
  {
    var r := MarkSolved(rows, h, col);
    forall u | u in users ensures HoldsHandle(r, u.cfHandle) {
      var k :| 0 <= k < |rows| && rows[k].cfHandle == u.cfHandle;
      assert r[k].cfHandle == u.cfHandle;
    }
  }

  /** The loop of update_solvers, user by user: returns the new handle rows
      and the users announced, in order. The check reads the newest column of
      the first row with the handle; the update writes column `col`. Rows keep
      their place, their handle and their number of flags. */
  function Sweep(rows: seq<HandleRow>, users: seq<HandleRow>, potd: Potd, col: nat,
                 fetch: string -> Fetch<seq<Submission>>): (r: (seq<HandleRow>, seq<HandleRow>))
    requires Sweepable(rows, users, col)
    ensures |r.0| == |rows|
    ensures forall k :: 0 <= k < |rows| ==> r.0[k].cfHandle == rows[k].cfHandle && |r.0[k].solved| == |rows[k].solved|
    decreases |users|
  {
    if users == [] then (rows, [])
    else
      var u := users[0];
      if SolvedToday(fetch, potd, u.cfHandle) && !LastFlagOf(rows, u.cfHandle) then
        MarkSolvedKeepsShape(rows, u.cfHandle, col, users[1..]);
        var next := Sweep(MarkSolved(rows, u.cfHandle, col), users[1..], potd, col, fetch);
        (next.0, [u] + next.1)
      else
        Sweep(rows, users[1..], potd, col, fetch)
  }

  /** The rows after handling the first user. */
  function StepRows(rows: seq<HandleRow>, u: HandleRow, potd: Potd, col: nat,
                    fetch: string -> Fetch<seq<Submission>>): seq<HandleRow>
    requires forall k :: 0 <= k < |rows| ==> col < |rows[k].solved|
    requires HoldsHandle(rows, u.cfHandle)
  {
    if SolvedToday(fetch, potd, u.cfHandle) && !LastFlagOf(rows, u.cfHandle)
    then MarkSolved(rows, u.cfHandle, col) else rows
  }

  /** Who the first user's step announces: that user, or nobody. */
  function StepAnnounced(rows: seq<HandleRow>, u: HandleRow, potd: Potd, col: nat,
                         fetch: string -> Fetch<seq<Submission>>): seq<HandleRow>
    requires forall k :: 0 <= k < |rows| ==> col < |rows[k].solved|
    requires HoldsHandle(rows, u.cfHandle)
  {
    if SolvedToday(fetch, potd, u.cfHandle) && !LastFlagOf(rows, u.cfHandle) then [u] else []
  }

  /** One step of Sweep, written out. */
  lemma SweepStep(rows: seq<HandleRow>, users: seq<HandleRow>, potd: Potd, col: nat,
                  fetch: string -> Fetch<seq<Submission>>)
    requires Sweepable(rows, users, col) && users != []
    ensures users[0] in users
    ensures Sweepable(StepRows(rows, users[0], potd, col, fetch), users[1..], col)
    ensures Sweep(rows, users, potd, col, fetch).0 == Sweep(StepRows(rows, users[0], potd, col, fetch), users[1..], potd, col, fetch).0
    ensures Sweep(rows, users, potd, col, fetch).1 ==
      StepAnnounced(rows, users[0], potd, col, fetch) + Sweep(StepRows(rows, users[0], potd, col, fetch), users[1..], potd, col, fetch).1
  {
    MarkSolvedKeepsShape(rows, users[0].cfHandle, col, users[1..]);
  }

  /** update_solvers for the POTD guild `guild` on date `today`. */
  method UpdateSolvers(db: Database, guild: int, today: Date, fetch: string -> Fetch<seq<Submission>>)
    returns (announced: seq<HandleRow>)
    requires db.Valid()
    modifies db
    ensures db.Valid()
    ensures db.columns == old(db.columns) && db.problems == old(db.problems)
    ensures db.contests == old(db.contests) && db.potds == old(db.potds)
    ensures old(db.GetPotd(today)).None? ==> announced == [] && db.handles == old(db.handles)
    ensures old(db.GetPotd(today)).Some? ==>
      && today in db.columns
      && Sweepable(old(db.handles), old(db.GetAllHandles(Some(guild))), ColumnIndex(db.columns, today))
      && (db.handles, announced) == Sweep(old(db.handles), old(db.GetAllHandles(Some(guild))), old(db.GetPotd(today)).value,
                                          ColumnIndex(db.columns, today), fetch)
  {
    var problem := db.GetPotd(today);
    if problem.None? {
      return [];
    }
    var potd := problem.value;
    var users := db.GetAllHandles(Some(guild));
    assert today in db.columns by {
      var i :| 0 <= i < |db.potds| && db.potds[i].useDate == today && potd == PotdView(db.potds[i]);
    }
    var col := ColumnIndex(db.columns, today);
    forall u | u in users ensures HoldsHandle(db.handles, u.cfHandle) {
      var k :| 0 <= k < |db.handles| && db.handles[k] == u;
    }
    announced := CongratulateSolvers(db, users, potd, today, fetch);
  }

  /** The loop of update_solvers over the guild's members, for today's problem. */
  method CongratulateSolvers(db: Database, users: seq<HandleRow>, potd: Potd, today: Date,
                             fetch: string -> Fetch<seq<Submission>>) returns (announced: seq<HandleRow>)
    requires db.Valid() && today in db.columns
    requires Sweepable(db.handles, users, ColumnIndex(db.columns, today))
    modifies db
    ensures db.Valid()
    ensures db.columns == old(db.columns) && db.problems == old(db.problems)
    ensures db.contests == old(db.contests) && db.potds == old(db.potds)
    ensures (db.handles, announced) == Sweep(old(db.handles), users, potd, ColumnIndex(db.columns, today), fetch)
  {
    var col := ColumnIndex(db.columns, today);
    ghost var finalRows := Sweep(db.handles, users, potd, col, fetch).0;
    ghost var finalAnnounced := Sweep(db.handles, users, potd, col, fetch).1;
    announced := [];
    var i := 0;
    assert users[i..] == users;
    assert SweepLeft(db.handles, users[i..], potd, col, fetch, announced, finalRows, finalAnnounced);
    while i < |users|
      invariant i <= |users|
      invariant db.Valid()
      invariant db.columns == old(db.columns) && db.problems == old(db.problems)
      invariant db.contests == old(db.contests) && db.potds == old(db.potds)
      invariant SweepLeft(db.handles, users[i..], potd, col, fetch, announced, finalRows, finalAnnounced)
    {
      var user := users[i];
      SweepLeftStep(db.handles, users[i..], potd, col, fetch, announced, finalRows, finalAnnounced);
      assert users[i..][0] == user && users[i..][1..] == users[i + 1..];
      var said := CongratulateOne(db, user, potd, today, col, fetch);
      announced := announced + said;
      i := i + 1;
    }
    assert users[i..] == [];
    assert announced + Sweep(db.handles, [], potd, col, fetch).1 == announced;
  }

  /** One pass of the loop body: check the user's submissions and newest
      flag, and set today's flag when they solved and it was still false. */
  method CongratulateOne(db: Database, user: HandleRow, potd: Potd, today: Date, col: nat,
                         fetch: string -> Fetch<seq<Submission>>) returns (said: seq<HandleRow>)
    requires db.Valid() && today in db.columns && col == ColumnIndex(db.columns, today)
    requires HoldsHandle(db.handles, user.cfHandle)
    modifies db
    ensures db.Valid()
    ensures db.columns == old(db.columns) && db.problems == old(db.problems)
    ensures db.contests == old(db.contests) && db.potds == old(db.potds)
    ensures db.handles == StepRows(old(db.handles), user, potd, col, fetch)
    ensures said == StepAnnounced(old(db.handles), user, potd, col, fetch)
  {
    said := [];
    if CheckSolved(fetch(user.cfHandle), potd.id, potd.rank) && !db.CheckUserPotd(user.cfHandle) {
      db.SetUserPotd(user.cfHandle, today);
      said := [user];
    }
  }

  /** The loop's invariant: sweeping the users still to come from the current
      rows ends in the rows and the announcements of the whole run. */
  ghost predicate SweepLeft(rows: seq<HandleRow>, rest: seq<HandleRow>, potd: Potd, col: nat,
                            fetch: string -> Fetch<seq<Submission>>, announced: seq<HandleRow>,
                            finalRows: seq<HandleRow>, finalAnnounced: seq<HandleRow>)
  {
    && Sweepable(rows, rest, col)
    && finalRows == Sweep(rows, rest, potd, col, fetch).0
    && finalAnnounced == announced + Sweep(rows, rest, potd, col, fetch).1
  }

  lemma SweepLeftStep(rows: seq<HandleRow>, rest: seq<HandleRow>, potd: Potd, col: nat,
                      fetch: string -> Fetch<seq<Submission>>, announced: seq<HandleRow>,
                      finalRows: seq<HandleRow>, finalAnnounced: seq<HandleRow>)
    requires SweepLeft(rows, rest, potd, col, fetch, announced, finalRows, finalAnnounced) && rest != []
    ensures HoldsHandle(rows, rest[0].cfHandle)
    ensures forall k :: 0 <= k < |rows| ==> col < |rows[k].solved|
    ensures SweepLeft(StepRows(rows, rest[0], potd, col, fetch), rest[1..], potd, col, fetch,
                      announced + StepAnnounced(rows, rest[0], potd, col, fetch), finalRows, finalAnnounced)
  {
    SweepStep(rows, rest, potd, col, fetch);
    var tail := Sweep(StepRows(rows, rest[0], potd, col, fetch), rest[1..], potd, col, fetch).1;
    assert announced + (StepAnnounced(rows, rest[0], potd, col, fetch) + tail)
        == (announced + StepAnnounced(rows, rest[0], potd, col, fetch)) + tail;
  }

  /** Sweep's own account of which rows it changed: a row's column `col`
      becomes true exactly when its handle was announced; nothing else moves. */
  lemma {:induction false} SweepChangesOnlyAnnouncedHandles(rows: seq<HandleRow>, users: seq<HandleRow>, potd: Potd,
                                                            col: nat, fetch: string -> Fetch<seq<Submission>>)
    requires Sweepable(rows, users, col)
    ensures var (after, announced) := Sweep(rows, users, potd, col, fetch);
      && |after| == |rows|
      && forall k :: 0 <= k < |rows| ==>
           after[k] == if exists a :: a in announced && a.cfHandle == rows[k].cfHandle
                       then rows[k].(solved := rows[k].solved[col := true]) else rows[k]
    decreases |users|
  {
    if users != [] {
      var u := users[0];
      if SolvedToday(fetch, potd, u.cfHandle) && !LastFlagOf(rows, u.cfHandle) {
        MarkSolvedKeepsShape(rows, u.cfHandle, col, users[1..]);
        var marked := MarkSolved(rows, u.cfHandle, col);
        SweepChangesOnlyAnnouncedHandles(marked, users[1..], potd, col, fetch);
        var (after, rest) := Sweep(marked, users[1..], potd, col, fetch);
        assert Sweep(rows, users, potd, col, fetch) == (after, [u] + rest);
        forall k | 0 <= k < |rows|
          ensures after[k] == if exists a :: a in [u] + rest && a.cfHandle == rows[k].cfHandle
                              then rows[k].(solved := rows[k].solved[col := true]) else rows[k]
        {
          MarkThenSweepRow(rows[k], marked[k], after[k], u, rest, col);
        }
      } else {
        SweepChangesOnlyAnnouncedHandles(rows, users[1..], potd, col, fetch);
      }
    }
  }

  /** One row through an announcement of `u` followed by the announcements
      `rest`: its flag is set once whichever of them holds its handle. */
  lemma MarkThenSweepRow(row: HandleRow, marked: HandleRow, after: HandleRow, u: HandleRow,
                         rest: seq<HandleRow>, col: nat)
    requires col < |row.solved|
    requires marked == if row.cfHandle == u.cfHandle then row.(solved := row.solved[col := true]) else row
    requires after == if exists a :: a in rest && a.cfHandle == marked.cfHandle
                      then marked.(solved := marked.solved[col := true]) else marked
    ensures after == if exists a :: a in [u] + rest && a.cfHandle == row.cfHandle
                     then row.(solved := row.solved[col := true]) else row
  {
    if row.cfHandle == u.cfHandle {
      assert u in [u] + rest;
      assert row.solved[col := true][col := true] == row.solved[col := true];
    } else if exists a :: a in [u] + rest && a.cfHandle == row.cfHandle {
      var a :| a in [u] + rest && a.cfHandle == row.cfHandle;
      assert a in rest;
    } else {
      forall a | a in rest ensures a.cfHandle != row.cfHandle {
        assert a in [u] + rest;
      }
    }
  }

  /** Only members who solved and whose newest flag was still false are announced. */
  lemma {:induction false} SweepAnnouncesOnlyNewSolvers(rows: seq<HandleRow>, users: seq<HandleRow>, potd: Potd,
                                                        col: nat, fetch: string -> Fetch<seq<Submission>>)
    requires Sweepable(rows, users, col)
    ensures forall a :: a in Sweep(rows, users, potd, col, fetch).1 ==>
      a in users && SolvedToday(fetch, potd, a.cfHandle) && !LastFlagOf(rows, a.cfHandle)
    decreases |users|
  {
    if users != [] {
      var u := users[0];
      if SolvedToday(fetch, potd, u.cfHandle) && !LastFlagOf(rows, u.cfHandle) {
        MarkSolvedKeepsShape(rows, u.cfHandle, col, users[1..]);
        var marked := MarkSolved(rows, u.cfHandle, col);
        SweepAnnouncesOnlyNewSolvers(marked, users[1..], potd, col, fetch);
        forall a | a in Sweep(marked, users[1..], potd, col, fetch).1
          ensures !LastFlagOf(rows, a.cfHandle)
        {
          LastFlagUnderMark(rows, u.cfHandle, col, a.cfHandle);
        }
      } else {
        SweepAnnouncesOnlyNewSolvers(rows, users[1..], potd, col, fetch);
      }
    }
  }

  /** Setting flags never clears the newest flag of any handle. */
  lemma LastFlagUnderMark(rows: seq<HandleRow>, h: string, col: nat, g: string)
    requires forall k :: 0 <= k < |rows| ==> col < |rows[k].solved|
    requires HoldsHandle(rows, g)
    ensures HoldsHandle(MarkSolved(rows, h, col), g)
    ensures LastFlagOf(rows, g) ==> LastFlagOf(MarkSolved(rows, h, col), g)
    ensures g != h ==> LastFlagOf(MarkSolved(rows, h, col), g) == LastFlagOf(rows, g)
    ensures g == h && col == |rows[FirstWithHandle(rows, g)].solved| - 1 ==> LastFlagOf(MarkSolved(rows, h, col), g)
  {
    var r := MarkSolved(rows, h, col);
    var k := FirstWithHandle(rows, g);
    assert r[k].cfHandle == g;
    assert FirstWithHandle(r, g) == k by {
      var k' := FirstWithHandle(r, g);
      assert rows[k'].cfHandle == g;
    }
  }

  /** When `col` is the newest column, one run sets the newest flag of every
      member who solved, so a second run that gets the same answers from the
      judge announces nobody. */
  lemma SecondSweepAnnouncesNobody(rows: seq<HandleRow>, users: seq<HandleRow>, potd: Potd,
                                   col: nat, fetch: string -> Fetch<seq<Submission>>)
    requires Sweepable(rows, users, col)
    requires forall k :: 0 <= k < |rows| ==> |rows[k].solved| == col + 1
    ensures var after := Sweep(rows, users, potd, col, fetch).0;
      && Sweepable(after, users, col)
      && (forall u :: u in users && SolvedToday(fetch, potd, u.cfHandle) ==> LastFlagOf(after, u.cfHandle))
      && Sweep(after, users, potd, col, fetch).1 == []
  {
    var after := Sweep(rows, users, potd, col, fetch).0;
    SweepSolversFlagged(rows, users, potd, col, fetch);
    NothingToAnnounce(after, users, potd, col, fetch);
  }

  /** Each run fetches the submissions afresh, yet a member is congratulated
      at most once a day: whatever the judge answers on a later run of the
      same day, nobody announced by the first run is announced again. */
  lemma NoSecondCongratulation(rows: seq<HandleRow>, users: seq<HandleRow>, potd: Potd, col: nat,
                               fetch1: string -> Fetch<seq<Submission>>, fetch2: string -> Fetch<seq<Submission>>)
    requires Sweepable(rows, users, col)
    requires forall k :: 0 <= k < |rows| ==> |rows[k].solved| == col + 1
    ensures var first := Sweep(rows, users, potd, col, fetch1);
      forall a, b :: a in first.1 && b in Sweep(first.0, users, potd, col, fetch2).1 ==> a.cfHandle != b.cfHandle
  {
    var after := Sweep(rows, users, potd, col, fetch1).0;
    SweepSolversFlagged(rows, users, potd, col, fetch1);
    SweepAnnouncesOnlyNewSolvers(rows, users, potd, col, fetch1);
    SweepAnnouncesOnlyNewSolvers(after, users, potd, col, fetch2);
  }

  /** Rows of the same shape serve the same users. */
  lemma SameShapeSweepable(rows: seq<HandleRow>, after: seq<HandleRow>, users: seq<HandleRow>, col: nat)
    requires Sweepable(rows, users, col)
    requires |after| == |rows|
    requires forall k :: 0 <= k < |rows| ==> after[k].cfHandle == rows[k].cfHandle && |after[k].solved| == |rows[k].solved|
    ensures Sweepable(after, users, col)
    ensures forall g :: HoldsHandle(rows, g) ==> HoldsHandle(after, g)
  {
    forall g | HoldsHandle(rows, g) ensures HoldsHandle(after, g) {
      var k :| 0 <= k < |rows| && rows[k].cfHandle == g;
      assert after[k].cfHandle == g;
    }
  }

  /** A newest flag that is set stays set for the rest of the run. */
  lemma {:induction false} SweepKeepsRaisedFlag(rows: seq<HandleRow>, users: seq<HandleRow>, potd: Potd,
                                                col: nat, fetch: string -> Fetch<seq<Submission>>, g: string)
    requires Sweepable(rows, users, col)
    requires HoldsHandle(rows, g) && LastFlagOf(rows, g)
    ensures var after := Sweep(rows, users, potd, col, fetch).0;
      HoldsHandle(after, g) && LastFlagOf(after, g)
    decreases |users|
  {
    var after := Sweep(rows, users, potd, col, fetch).0;
    SameShapeSweepable(rows, after, users, col);
    if users != [] {
      SweepStep(rows, users, potd, col, fetch);
      var next := StepRows(rows, users[0], potd, col, fetch);
      LastFlagUnderMark(rows, users[0].cfHandle, col, g);
      SweepKeepsRaisedFlag(next, users[1..], potd, col, fetch, g);
    }
  }

  /** After a run on the newest column, every member who solved has the
      newest flag set. */
  lemma {:induction false} SweepSolversFlagged(rows: seq<HandleRow>, users: seq<HandleRow>, potd: Potd,
                                               col: nat, fetch: string -> Fetch<seq<Submission>>)
    requires Sweepable(rows, users, col)
    requires forall k :: 0 <= k < |rows| ==> |rows[k].solved| == col + 1
    ensures var after := Sweep(rows, users, potd, col, fetch).0;
      && Sweepable(after, users, col)
      && forall u :: u in users && SolvedToday(fetch, potd, u.cfHandle) ==> LastFlagOf(after, u.cfHandle)
    decreases |users|
  {
    var after := Sweep(rows, users, potd, col, fetch).0;
    SameShapeSweepable(rows, after, users, col);
    if users != [] {
      var u := users[0];
      SweepStep(rows, users, potd, col, fetch);
      var next := StepRows(rows, u, potd, col, fetch);
      assert forall k :: 0 <= k < |next| ==> |next[k].solved| == col + 1;
      SweepSolversFlagged(next, users[1..], potd, col, fetch);
      if SolvedToday(fetch, potd, u.cfHandle) {
        LastFlagUnderMark(rows, u.cfHandle, col, u.cfHandle);
        SweepKeepsRaisedFlag(next, users[1..], potd, col, fetch, u.cfHandle);
      }
    }
  }

  lemma {:induction false} NothingToAnnounce(rows: seq<HandleRow>, users: seq<HandleRow>, potd: Potd,
                                             col: nat, fetch: string -> Fetch<seq<Submission>>)
    requires Sweepable(rows, users, col)
    requires forall u :: u in users && SolvedToday(fetch, potd, u.cfHandle) ==> LastFlagOf(rows, u.cfHandle)
    ensures Sweep(rows, users, potd, col, fetch).1 == []
    decreases |users|
  {
    if users != [] {
      NothingToAnnounce(rows, users[1..], potd, col, fetch);
    }
  }
}
