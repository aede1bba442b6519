/** Catalog synchronisation (update_problemset and is_non_standard in main.py):
    which fetched contests and problems enter the local catalog. The two
    fetched lists are given as values; a failed fetch (which makes the source
    iterate `False` and throw) is outside the model. */
module Catalog {
  import opened Common
  import opened Store

  /** Name fragments of contests kept out of the POTD pool. */
  const NonStandardMarkers: seq<string> := [
    "wild", "fools", "unrated", "surprise", "unknown", "friday", "q#",
    "testing", "marathon", "kotlin", "onsite", "experimental", "abbyy"
  ]

  datatype RemoteContest = RemoteContest(id: int, name: string, phase: string)

  datatype RemoteProblem = RemoteProblem(contestId: int, index: string, name: string, kind: string, rating: Option<int>)

  /** Whether some marker from position `k` on occurs in `lowered`. */
  function AnyMarkerFrom(lowered: string, k: nat): (r: bool)
    requires k <= |NonStandardMarkers|
    ensures r <==> exists j :: k <= j < |NonStandardMarkers| && Contains(lowered, NonStandardMarkers[j])
    decreases |NonStandardMarkers| - k
  {
    if k == |NonStandardMarkers| then false
    else Contains(lowered, NonStandardMarkers[k]) || AnyMarkerFrom(lowered, k + 1)
  }

  /** is_non_standard: the lower-cased name contains one of the markers. */
  function IsNonStandard(name: string): (r: bool)
    ensures r <==> exists j :: 0 <= j < |NonStandardMarkers| && Contains(Lower(name), NonStandardMarkers[j])
  {
    AnyMarkerFrom(Lower(name), 0)
  }

  /** The test ignores case: names that agree up to case are classified alike. */
  lemma NonStandardIgnoresCase(a: string, b: string)
    requires Lower(a) == Lower(b)
    ensures IsNonStandard(a) == IsNonStandard(b)
  {
  }

  /** An April Fools round is non-standard. */
  lemma AprilFoolsIsNonStandard()
    ensures IsNonStandard("April Fools Day Contest 2023")
  {
    FoolsAtSix("April Fools Day Contest 2023");
  }

  /** The same round in capitals is non-standard too. */
  lemma CapitalAprilFoolsIsNonStandard()
    ensures IsNonStandard("APRIL FOOLS DAY CONTEST 2023")
  {
    FoolsAtSix("APRIL FOOLS DAY CONTEST 2023");
  }

  lemma FoolsAtSix(name: string)
    requires |name| >= 11 && forall k :: 6 <= k < 11 ==> LowerChar(name[k]) == "fools"[k - 6]
    ensures IsNonStandard(name)
  {
    var l := Lower(name);
    assert l[6..11] == "fools";
    assert OccursAt(l, NonStandardMarkers[1], 6);
  }

  /** `mapping`: contest id to name over the whole fetched list, the later
      entry winning for a repeated id. */
  function Names(contests: seq<RemoteContest>): (m: map<int, string>)
    ensures forall id :: id in m <==> exists i :: 0 <= i < |contests| && contests[i].id == id
  {
    if contests == [] then map[]
    else
      var init := contests[..|contests| - 1];
      var m := Names(init)[Last(contests).id := Last(contests).name];
      assert forall i :: 0 <= i < |init| ==> init[i] == contests[i];
      m
  }

  /** No later entry of the list repeats the id of entry `i`. */
  predicate LastWithItsId(contests: seq<RemoteContest>, i: nat)
    requires i < |contests|
  {
    forall j :: i < j < |contests| ==> contests[j].id != contests[i].id
  }

  /** For a repeated id the later entry wins: the name mapped to an id is
      that of the last entry carrying it. */
  lemma {:induction false} NamesLastWins(contests: seq<RemoteContest>, i: nat)
    requires i < |contests| && LastWithItsId(contests, i)
    ensures contests[i].id in Names(contests) && Names(contests)[contests[i].id] == contests[i].name
  {
    var init := contests[..|contests| - 1];
    if i < |init| {
      assert init[i] == contests[i];
      assert LastWithItsId(init, i) by {
        forall j | i < j < |init| ensures init[j].id != init[i].id {
          assert init[j] == contests[j];
        }
      }
      NamesLastWins(init, i);
      assert Last(contests).id != contests[i].id;
    }
  }

  /** The condition under which a fetched contest is inserted, against the
      contest ids stored when the sync started. */
  predicate ContestAdmitted(c: RemoteContest, storedIds: seq<int>)
  {
    c.id !in storedIds && c.phase == "FINISHED" && !IsNonStandard(c.name)
  }

  /** The condition under which a fetched problem is inserted. The last test
      compares the problem's contest id with the `id` of the problems stored
      when the sync started, which is their contest id too. */
  predicate ProblemAdmitted(p: RemoteProblem, names: map<int, string>, storedProblemIds: seq<int>)
  {
    p.contestId in names && !IsNonStandard(names[p.contestId]) && p.rating.Some? && p.contestId !in storedProblemIds
  }

  function ContestRecord(c: RemoteContest): ContestRow
  {
    ContestRow(c.id, c.name)
  }

  function ProblemRecord(p: RemoteProblem): ProblemRow
    requires p.rating.Some?
  {
    ProblemRow(p.contestId, p.index, p.name, p.kind, p.rating.value, None, false)
  }

  /** The contest rows one sync appends, in the order of the fetched list. */
  function NewContests(contests: seq<RemoteContest>, storedIds: seq<int>): seq<ContestRow>
  {
    if contests == [] then []
    else NewContests(contests[..|contests| - 1], storedIds)
         + (if ContestAdmitted(Last(contests), storedIds) then [ContestRecord(Last(contests))] else [])
  }

  /** The problem rows one sync appends, in the order of the fetched list. */
  function NewProblems(problems: seq<RemoteProblem>, names: map<int, string>, storedProblemIds: seq<int>): seq<ProblemRow>
  {
    if problems == [] then []
    else NewProblems(problems[..|problems| - 1], names, storedProblemIds)
         + (if ProblemAdmitted(Last(problems), names, storedProblemIds) then [ProblemRecord(Last(problems))] else [])
  }

  /** A contest row is inserted exactly when it comes from an admitted contest. */
  lemma {:induction false} NewContestsExactly(contests: seq<RemoteContest>, storedIds: seq<int>, row: ContestRow)
    ensures row in NewContests(contests, storedIds) <==>
      exists i :: 0 <= i < |contests| && ContestAdmitted(contests[i], storedIds) && ContestRecord(contests[i]) == row
  {
    if contests != [] {
      var init := contests[..|contests| - 1];
      NewContestsExactly(init, storedIds, row);
      assert forall i :: 0 <= i < |init| ==> init[i] == contests[i];
      if row in NewContests(contests, storedIds) && row !in NewContests(init, storedIds) {
        assert ContestAdmitted(contests[|contests| - 1], storedIds) && ContestRecord(contests[|contests| - 1]) == row;
      }
    }
  }

  /** A problem row is inserted exactly when it comes from an admitted problem,
      and it is inserted unused and without tags. */
  lemma {:induction false} NewProblemsExactly(problems: seq<RemoteProblem>, names: map<int, string>,
                                              storedProblemIds: seq<int>, row: ProblemRow)
    ensures row in NewProblems(problems, names, storedProblemIds) <==>
      exists i :: 0 <= i < |problems| && ProblemAdmitted(problems[i], names, storedProblemIds) && ProblemRecord(problems[i]) == row
    ensures row in NewProblems(problems, names, storedProblemIds) ==> !row.used && row.tags.None?
  {
    if problems != [] {
      var init := problems[..|problems| - 1];
      NewProblemsExactly(init, names, storedProblemIds, row);
      assert forall i :: 0 <= i < |init| ==> init[i] == problems[i];
      if row in NewProblems(problems, names, storedProblemIds) && row !in NewProblems(init, names, storedProblemIds) {
        assert ProblemAdmitted(problems[|problems| - 1], names, storedProblemIds);
        assert ProblemRecord(problems[|problems| - 1]) == row;
      }
    }
  }

  /** The dedup quirk: once any problem of a contest is stored, no further
      problem of that contest is imported, whatever its index. */
  lemma StoredContestBlocksAllItsProblems(problems: seq<RemoteProblem>, names: map<int, string>,
                                          storedProblemIds: seq<int>, contestId: int)
    requires contestId in storedProblemIds
    ensures forall row :: row in NewProblems(problems, names, storedProblemIds) ==> row.id != contestId
  {
    forall row | row in NewProblems(problems, names, storedProblemIds)
      ensures row.id != contestId
    {
      NewProblemsExactly(problems, names, storedProblemIds, row);
    }
  }

  /** No problem of a contest whose fetched name is non-standard is imported. */
  lemma NonStandardContestContributesNothing(contests: seq<RemoteContest>, problems: seq<RemoteProblem>,
                                             storedProblemIds: seq<int>, contestId: int)
    requires contestId in Names(contests) && IsNonStandard(Names(contests)[contestId])
    ensures forall row :: row in NewProblems(problems, Names(contests), storedProblemIds) ==> row.id != contestId
  {
    forall row | row in NewProblems(problems, Names(contests), storedProblemIds)
      ensures row.id != contestId
    {
      NewProblemsExactly(problems, Names(contests), storedProblemIds, row);
    }
  }

  function ProblemIds(rows: seq<ProblemRow>): (ids: seq<int>)
    ensures |ids| == |rows| && forall i :: 0 <= i < |rows| ==> ids[i] == rows[i].id
  {
    seq(|rows|, i requires 0 <= i < |rows| => rows[i].id)
  }

  /** update_problemset over the fetched lists. The stored ids are read once,
      before either loop, so neither loop sees its own inserts. */
  method UpdateProblemset(db: Database, contestList: seq<RemoteContest>, problemList: seq<RemoteProblem>)
    returns (conCnt: nat, probCnt: nat)
    requires db.Valid()
    modifies db
    ensures db.Valid()
    ensures db.contests == old(db.contests) + NewContests(contestList, old(db.GetContestsId()))
    ensures db.problems == old(db.problems) + NewProblems(problemList, Names(contestList), ProblemIds(old(db.problems)))
    ensures conCnt == |NewContests(contestList, old(db.GetContestsId()))|
    ensures probCnt == |NewProblems(problemList, Names(contestList), ProblemIds(old(db.problems)))|
    ensures db.handles == old(db.handles) && db.columns == old(db.columns) && db.potds == old(db.potds)
  {
    var contestId := db.GetContestsId();
    var problemId := ProblemIds(db.problems);
    var mapping;
    mapping, conCnt := ImportContests(db, contestList, contestId);
    probCnt := ImportProblems(db, problemList, mapping, problemId);
  }

  /** The contest loop of update_problemset: builds the id-to-name mapping
      over every fetched contest and inserts the admitted ones. */
  method ImportContests(db: Database, contestList: seq<RemoteContest>, contestId: seq<int>)
    returns (mapping: map<int, string>, conCnt: nat)
    requires db.Valid()
    modifies db
    ensures db.Valid()
    ensures mapping == Names(contestList)
    ensures db.contests == old(db.contests) + NewContests(contestList, contestId)
    ensures conCnt == |NewContests(contestList, contestId)|
    ensures db.problems == old(db.problems)
    ensures db.handles == old(db.handles) && db.columns == old(db.columns) && db.potds == old(db.potds)
  {
    mapping, conCnt := map[], 0;
    var i := 0;
    while i < |contestList|
      invariant i <= |contestList|
      invariant db.Valid()
      invariant mapping == Names(contestList[..i])
      invariant db.contests == old(db.contests) + NewContests(contestList[..i], contestId)
      invariant conCnt == |NewContests(contestList[..i], contestId)|
      invariant db.problems == old(db.problems)
      invariant db.handles == old(db.handles) && db.columns == old(db.columns) && db.potds == old(db.potds)
    {
      var contest := contestList[i];
      assert contestList[..i + 1][..i] == contestList[..i];
      mapping := mapping[contest.id := contest.name];
      if contest.id !in contestId && contest.phase == "FINISHED" && !IsNonStandard(contest.name) {
        conCnt := conCnt + 1;
        db.AddContest(contest.id, contest.name);
      }
      i := i + 1;
    }
    assert contestList[..i] == contestList;
  }

  /** The problem loop of update_problemset: inserts the admitted problems, unused. */
  method ImportProblems(db: Database, problemList: seq<RemoteProblem>, mapping: map<int, string>, problemId: seq<int>)
    returns (probCnt: nat)
    requires db.Valid()
    modifies db
    ensures db.Valid()
    ensures db.problems == old(db.problems) + NewProblems(problemList, mapping, problemId)
    ensures probCnt == |NewProblems(problemList, mapping, problemId)|
    ensures db.contests == old(db.contests)
    ensures db.handles == old(db.handles) && db.columns == old(db.columns) && db.potds == old(db.potds)
  {
    probCnt := 0;
    var j := 0;
    while j < |problemList|
      invariant j <= |problemList|
      invariant db.Valid()
      invariant db.problems == old(db.problems) + NewProblems(problemList[..j], mapping, problemId)
      invariant probCnt == |NewProblems(problemList[..j], mapping, problemId)|
      invariant db.contests == old(db.contests)
      invariant db.handles == old(db.handles) && db.columns == old(db.columns) && db.potds == old(db.potds)
    {
      var problem := problemList[j];
      assert problemList[..j + 1][..j] == problemList[..j];
      if problem.contestId in mapping && !IsNonStandard(mapping[problem.contestId])
         && problem.rating.Some? && problem.contestId !in problemId {
        probCnt := probCnt + 1;
        db.AddProblem(problem.contestId, problem.index, problem.name, problem.kind, problem.rating.value, false);
      }
      j := j + 1;
    }
    assert problemList[..j] == problemList;
  }
}
