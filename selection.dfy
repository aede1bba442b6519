/** Choosing the problem of the day (find_problem, potd_difficulties and
    select_potd in main.py). The weighted random draw is modelled as a free
    choice among the candidates; the clock is a parameter. */
module Selection {
  import opened Common
  import opened Store

  /** Target rating by weekday, Monday first. */
  const PotdDifficulties: seq<int> := [800, 1200, 900, 1300, 1000, 1600, 1400]

  /** `options`: the unused problems of exactly that rating, in catalog order. */
  function Options(catalog: seq<Problem>, rating: int): (r: seq<Problem>)
    ensures forall p :: p in r <==> p in catalog && p.rating == rating && !p.used
  {
    Filter(catalog, (p: Problem) => p.rating == rating && !p.used)
  }

  datatype Pick = Picked(problem: Problem) | Exhausted(message: string)

  function ExhaustedMessage(rating: int): string
  {
    "Not enough problems with rating " + IntToString(rating) + " left!"
  }

  /** find_problem: some unused problem of that rating from the catalog, or
      the exhaustion message exactly when there is none. */
  method FindProblem(db: Database, rating: int) returns (pick: Pick)
    ensures pick.Picked? ==> pick.problem in db.GetProblems(None)
    ensures pick.Picked? ==> pick.problem.rating == rating && !pick.problem.used
    ensures pick.Exhausted? <==> forall p :: p in db.GetProblems(None) ==> !(p.rating == rating && !p.used)
    ensures pick.Exhausted? ==> pick.message == ExhaustedMessage(rating)
  {
    var allProblems := db.GetProblems(None);
    var options := Options(allProblems, rating);
    if |options| > 0 {
      assert options[0] in options;
      var p :| p in options;
      pick := Picked(p);
    } else {
      pick := Exhausted(ExhaustedMessage(rating));
    }
  }

  /** select_potd for a weekday (Monday = 0) and date. With a problem left,
      it records the POTD (and today's flag column) and marks the problem
      used. With none left the source fails reading `.id` off `False` before
      touching the store; here the store is left as it was. The caller runs it
      at most once a day: a second run fails at the new column. */
  method SelectPotd(db: Database, weekday: int, today: Date) returns (pick: Pick)
    requires db.Valid()
    requires 0 <= weekday < 7
    requires today !in db.columns
    modifies db
    ensures db.Valid()
    ensures pick.Exhausted? ==>
      && pick.message == ExhaustedMessage(PotdDifficulties[weekday])
      && db.handles == old(db.handles) && db.columns == old(db.columns) && db.potds == old(db.potds)
      && db.problems == old(db.problems) && db.contests == old(db.contests)
    ensures pick.Picked? ==>
      && pick.problem in old(db.GetProblems(None))
      && pick.problem.rating == PotdDifficulties[weekday] && !pick.problem.used
      && db.columns == old(db.columns) + [today]
      && db.handles == AddFlagColumn(old(db.handles))
      && db.potds == old(db.potds) + [PotdRow(pick.problem.id, pick.problem.rank, pick.problem.name, today)]
      && db.problems == MarkUsed(old(db.problems), pick.problem.id, pick.problem.rank, pick.problem.name)
      && db.GetPotd(today) == Some(Potd(pick.problem.id, pick.problem.rank, pick.problem.name))
    ensures db.contests == old(db.contests)
  {
    var diff := PotdDifficulties[weekday];
    pick := FindProblem(db, diff);
    if pick.Exhausted? {
      return;
    }
    var problem := pick.problem;
    db.AddPotd(problem.id, problem.rank, problem.name, today);
    db.SetUsed(problem.id, problem.rank, problem.name);
  }

  /** Selection consumes the problem: after it, the chosen problem's rows are
      used, so they are never offered again, at any rating. */
  lemma ChosenProblemLeavesThePool(rows: seq<ProblemRow>, p: Problem)
    ensures forall rating, row :: row in MarkUsed(rows, p.id, p.rank, p.name) && row.id == p.id && row.rank == p.rank && row.name == p.name
                                  ==> ProblemView(row) !in Options(ProblemViews(MarkUsed(rows, p.id, p.rank, p.name)), rating)
  {
  }
}
