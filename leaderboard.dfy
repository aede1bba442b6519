/** The two leaderboards (streak_leaderboard, solves_leaderboard and
    format_number in main.py). Each handle row's flags are read from the
    newest column back; the `[count, handle]` pairs are sorted, reversed,
    given places, and rendered one line each. */
module Leaderboard {
  import opened Common
  import opened Store

  // ---------------------------------------------------------------------
  // Streaks

  /** Length of the run of true flags at the end of `flags`. */
  function TrailingTrue(flags: seq<bool>): (n: nat)
    ensures n <= |flags|
    ensures forall k :: |flags| - n <= k < |flags| ==> flags[k]
    ensures n < |flags| ==> !flags[|flags| - 1 - n]
  {
    if flags == [] || !Last(flags) then 0
    else 1 + TrailingTrue(flags[..|flags| - 1])
  }

  /** A maximal run of true flags at the end has the length TrailingTrue says. */
  lemma TrailingTrueRun(flags: seq<bool>, j: nat)
    requires j <= |flags|
    requires forall k :: j <= k < |flags| ==> flags[k]
    requires j == 0 || !flags[j - 1]
    ensures TrailingTrue(flags) == |flags| - j
  {
  }

  /** The days the streak counts back through: all of them, or all but the
      newest when the newest is not solved (that day is still open). */
  function StreakWindow(flags: seq<bool>): (w: seq<bool>)
    ensures w <= flags && |flags| - 1 <= |w|
  {
    if flags != [] && !Last(flags) then flags[..|flags| - 1] else flags
  }

  /** The current streak: the run of solved days that ends on the newest day,
      or on the day before when the newest is not solved; the day before the
      run is unsolved or there is none. */
  function Streak(flags: seq<bool>): (n: nat)
    ensures n <= |StreakWindow(flags)|
    ensures forall k :: |StreakWindow(flags)| - n <= k < |StreakWindow(flags)| ==> flags[k]
    ensures n < |StreakWindow(flags)| ==> !flags[|StreakWindow(flags)| - 1 - n]
  {
    TrailingTrue(StreakWindow(flags))
  }

  /** The inner loop of streak_leaderboard: from the newest flag back, an
      unsolved newest day is skipped and any other unsolved day stops the count. */
  method StreakOf(flags: seq<bool>) returns (streak: nat)
    ensures streak == Streak(flags)
  {
    ghost var w := StreakWindow(flags);
    streak := 0;
    var i := |flags| - 1;
    while i >= 0
      invariant -1 <= i < |flags|
      invariant streak == if i + 1 <= |w| then |w| - (i + 1) else 0
      invariant forall k :: i < k < |w| ==> flags[k]
    {
      if !flags[i] {
        if i == |flags| - 1 {
          i := i - 1;
          continue;
        } else {
          TrailingTrueRun(w, i + 1);
          break;
        }
      }
      streak := streak + 1;
      i := i - 1;
    }
    if i < 0 {
      TrailingTrueRun(w, 0);
    }
  }

  // ---------------------------------------------------------------------
  // Solve counts

  /** Number of solved days. */
  function CountTrue(flags: seq<bool>): (n: nat)
    ensures n <= |flags|
  {
    if flags == [] then 0 else (if flags[0] then 1 else 0) + CountTrue(flags[1..])
  }

  /** CountTrue is the multiplicity of `true` among the flags. */
  lemma {:induction false} CountTrueIsMultiplicity(flags: seq<bool>)
    ensures CountTrue(flags) == multiset(flags)[true]
  {
    if flags != [] {
      CountTrueIsMultiplicity(flags[1..]);
      assert flags == [flags[0]] + flags[1..];
    }
  }

  lemma {:induction false} CountTrueAppend(flags: seq<bool>, b: bool)
    ensures CountTrue(flags + [b]) == CountTrue(flags) + (if b then 1 else 0)
  {
    if flags != [] {
      assert (flags + [b])[1..] == flags[1..] + [b];
      CountTrueAppend(flags[1..], b);
    }
  }

  /** The inner loop of solves_leaderboard: the flags summed from the newest back. */
  method SolvesOf(flags: seq<bool>) returns (solved: nat)
    ensures solved == CountTrue(flags)
  {
    solved := 0;
    var i := |flags| - 1;
    while i >= 0
      invariant -1 <= i < |flags|
      invariant solved == CountTrue(flags[i + 1..])
    {
      assert flags[i..][1..] == flags[i + 1..];
      solved := solved + (if flags[i] then 1 else 0);
      i := i - 1;
    }
    assert flags[0..] == flags;
  }

  lemma {:induction false} TrailingTrueAtMostCount(flags: seq<bool>)
    ensures TrailingTrue(flags) <= CountTrue(flags)
  {
    if flags != [] {
      var init := flags[..|flags| - 1];
      assert flags == init + [Last(flags)];
      TrailingTrueAtMostCount(init);
      CountTrueAppend(init, Last(flags));
    }
  }

  /** A streak never exceeds the number of problems solved. */
  lemma StreakAtMostSolves(flags: seq<bool>)
    ensures Streak(flags) <= CountTrue(flags)
  {
    var w := StreakWindow(flags);
    TrailingTrueAtMostCount(w);
    if w != flags {
      assert flags == w + [false];
      CountTrueAppend(w, false);
    }
  }

  /** Two examples: a missed day ends a streak, an open day does not. */
  lemma StreakExamples()
    ensures Streak([true, false, true, true]) == 2
    ensures Streak([true, false, true, false]) == 1
    ensures Streak([true, true, false, false]) == 0
  {
    TrailingTrueRun([true, false, true, true], 2);
    TrailingTrueRun([true, false, true], 2);
    TrailingTrueRun([true, true, false], 3);
  }

  // ---------------------------------------------------------------------
  // Sorting `[count, handle]` pairs

  /** Python's ordering of strings: lexicographic by code point. */
  predicate StrLe(a: string, b: string)
  {
    a == [] || (b != [] && (a[0] < b[0] || (a[0] == b[0] && StrLe(a[1..], b[1..]))))
  }

  lemma {:induction false} StrLeTotal(a: string, b: string)
    ensures StrLe(a, b) || StrLe(b, a)
  {
    if a != [] && b != [] && a[0] == b[0] {
      StrLeTotal(a[1..], b[1..]);
    }
  }

  lemma {:induction false} StrLeTransitive(a: string, b: string, c: string)
    requires StrLe(a, b) && StrLe(b, c)
    ensures StrLe(a, c)
  {
    if a != [] && a[0] == b[0] && b[0] == c[0] {
      StrLeTransitive(a[1..], b[1..], c[1..]);
    }
  }

  lemma {:induction false} StrLeReflexive(a: string)
    ensures StrLe(a, a)
  {
    if a != [] {
      StrLeReflexive(a[1..]);
    }
  }

  lemma {:induction false} StrLeAntisymmetric(a: string, b: string)
    requires StrLe(a, b) && StrLe(b, a)
    ensures a == b
  {
    if a != [] {
      StrLeAntisymmetric(a[1..], b[1..]);
      assert a == [a[0]] + a[1..] && b == [b[0]] + b[1..];
    }
  }

  /** A leaderboard pair `[count, handle]`. */
  datatype Entry = Entry(count: int, handle: string)

  /** The order `list.sort()` gives the pairs: by count, then by handle. */
  predicate EntryLe(x: Entry, y: Entry)
  {
    x.count < y.count || (x.count == y.count && StrLe(x.handle, y.handle))
  }

  lemma EntryLeTotal(x: Entry, y: Entry)
    ensures EntryLe(x, y) || EntryLe(y, x)
  {
    StrLeTotal(x.handle, y.handle);
  }

  lemma EntryLeTransitive(x: Entry, y: Entry, z: Entry)
    requires EntryLe(x, y) && EntryLe(y, z)
    ensures EntryLe(x, z)
  {
    if x.count == y.count == z.count {
      StrLeTransitive(x.handle, y.handle, z.handle);
    }
  }

  lemma EntryLeAntisymmetric(x: Entry, y: Entry)
    requires EntryLe(x, y) && EntryLe(y, x)
    ensures x == y
  {
    StrLeAntisymmetric(x.handle, y.handle);
  }

  /** Largest pair first, as after `sort()` and `reverse()`. */
  predicate Descending(s: seq<Entry>)
  {
    forall i, j :: 0 <= i < j < |s| ==> EntryLe(s[j], s[i])
  }

  lemma PrependLargest(x: Entry, s: seq<Entry>)
    requires Descending(s)
    requires forall y :: y in s ==> EntryLe(y, x)
    ensures Descending([x] + s)
  {
    forall i, j | 0 <= i < j < |[x] + s| ensures EntryLe(([x] + s)[j], ([x] + s)[i]) {
      if i > 0 {
        assert ([x] + s)[i] == s[i - 1] && ([x] + s)[j] == s[j - 1];
      } else {
        assert ([x] + s)[j] in s;
      }
    }
  }

  /** Insert one pair into a descending sequence. */
  function Insert(x: Entry, s: seq<Entry>): (r: seq<Entry>)
    requires Descending(s)
    ensures Descending(r)
    ensures multiset(r) == multiset(s) + multiset{x}
  {
    if s == [] then [x]
    else if EntryLe(s[0], x) then
      forall y | y in s ensures EntryLe(y, x) {
        var j :| 0 <= j < |s| && s[j] == y;
        if j > 0 {
          EntryLeTransitive(y, s[0], x);
        }
      }
      PrependLargest(x, s);
      [x] + s
    else
      EntryLeTotal(s[0], x);
      var rest := Insert(x, s[1..]);
      assert s == [s[0]] + s[1..];
      forall y | y in rest ensures EntryLe(y, s[0]) {
        assert y in multiset(rest);
        if y != x {
          assert y in multiset(s[1..]);
        }
      }
      PrependLargest(s[0], rest);
      [s[0]] + rest
  }

  /** `sort()` followed by `reverse()`: the same pairs, largest first. */
  function SortDescending(s: seq<Entry>): (r: seq<Entry>)
    ensures Descending(r)
    ensures multiset(r) == multiset(s)
  {
    if s == [] then []
    else
      assert s == [s[0]] + s[1..];
      Insert(s[0], SortDescending(s[1..]))
  }

  lemma DescendingHeadIsLargest(s: seq<Entry>, x: Entry)
    requires Descending(s) && x in s
    ensures EntryLe(x, s[0])
  {
    var j :| 0 <= j < |s| && s[j] == x;
    if j == 0 {
      StrLeReflexive(x.handle);
    }
  }

  lemma DescendingTail(s: seq<Entry>)
    requires Descending(s) && s != []
    ensures Descending(s[1..])
  {
    forall i, j | 0 <= i < j < |s[1..]| ensures EntryLe(s[1..][j], s[1..][i]) {
      assert s[1..][j] == s[j + 1] && s[1..][i] == s[i + 1];
    }
  }

  /** Two descending arrangements of the same pairs start with the same
      pair, and what follows is again the same pairs. */
  lemma SameHeadSameTail(r: seq<Entry>, t: seq<Entry>)
    requires Descending(r) && Descending(t) && r != []
    requires multiset(r) == multiset(t)
    ensures t != [] && r[0] == t[0]
    ensures multiset(r[1..]) == multiset(t[1..])
  {
    assert r[0] in multiset(t);
    assert t[0] in multiset(r);
    DescendingHeadIsLargest(t, r[0]);
    DescendingHeadIsLargest(r, t[0]);
    EntryLeAntisymmetric(r[0], t[0]);
    assert r == [r[0]] + r[1..] && t == [t[0]] + t[1..];
    calc {
      multiset(r[1..]);
      multiset(r) - multiset{r[0]};
      multiset(t) - multiset{t[0]};
      multiset(t[1..]);
    }
  }

  /** The pairs are totally ordered, so only one descending arrangement of
      them exists: any sort followed by a reversal yields SortDescending. */
  lemma {:induction false} DescendingIsUnique(r: seq<Entry>, t: seq<Entry>)
    requires Descending(r) && Descending(t)
    requires multiset(r) == multiset(t)
    ensures r == t
    decreases |r|
  {
    if r == [] {
      assert |t| == |multiset(t)| == 0;
    } else {
      SameHeadSameTail(r, t);
      DescendingTail(r);
      DescendingTail(t);
      DescendingIsUnique(r[1..], t[1..]);
      assert r == [r[0]] + r[1..] && t == [t[0]] + t[1..];
    }
  }

  // ---------------------------------------------------------------------
  // Places

  function Counts(board: seq<Entry>): (c: seq<int>)
    ensures |c| == |board| && forall i :: 0 <= i < |board| ==> c[i] == board[i].count
  {
    seq(|board|, i requires 0 <= i < |board| => board[i].count)
  }

  /** How many of the counts are strictly larger than `c`. */
  function CountAbove(counts: seq<int>, c: int): (n: nat)
    ensures n <= |counts|
  {
    if counts == [] then 0 else (if counts[0] > c then 1 else 0) + CountAbove(counts[1..], c)
  }

  /** `curr_place` for line `i`: it moves to i + 1 whenever the count differs
      from the line above, and otherwise stays. */
  function Place(board: seq<Entry>, i: nat): (p: nat)
    requires i < |board|
    ensures 1 <= p <= i + 1
    ensures forall k :: p - 1 <= k <= i ==> board[k].count == board[i].count
    ensures p == 1 || board[p - 2].count != board[i].count
  {
    if i == 0 || board[i - 1].count != board[i].count then i + 1 else Place(board, i - 1)
  }

  lemma {:induction false} CountAbovePrefix(counts: seq<int>, c: int, m: nat)
    requires m <= |counts|
    requires forall k :: 0 <= k < m ==> counts[k] > c
    requires forall k :: m <= k < |counts| ==> counts[k] <= c
    ensures CountAbove(counts, c) == m
  {
    if counts != [] {
      CountAbovePrefix(counts[1..], c, if m == 0 then 0 else m - 1);
    }
  }

  predicate NonIncreasing(c: seq<int>)
  {
    forall i, j :: 0 <= i < j < |c| ==> c[j] <= c[i]
  }

  lemma DescendingCounts(board: seq<Entry>)
    requires Descending(board)
    ensures NonIncreasing(Counts(board))
  {
    var c := Counts(board);
    forall i, j | 0 <= i < j < |c| ensures c[j] <= c[i] {
      assert EntryLe(board[j], board[i]);
    }
  }

  /** In non-increasing counts, the run of `c[i]` starting at `p - 1` is
      preceded by exactly the larger counts. */
  lemma RunStartIsRank(c: seq<int>, i: nat, p: nat)
    requires NonIncreasing(c) && i < |c|
    requires 1 <= p <= i + 1
    requires forall k :: p - 1 <= k <= i ==> c[k] == c[i]
    requires p == 1 || c[p - 2] != c[i]
    ensures CountAbove(c, c[i]) == p - 1
  {
    forall k | 0 <= k < p - 1 ensures c[k] > c[i] {
      assert c[p - 2] <= c[k] && c[i] <= c[p - 2];
    }
    forall k | p - 1 <= k < |c| ensures c[k] <= c[i] {
      if k > i {
        assert c[k] <= c[i];
      }
    }
    CountAbovePrefix(c, c[i], p - 1);
  }

  /** On a descending board the places are competition ranks: one more than
      the number of strictly larger counts, so ties share a place and the
      next place skips. */
  lemma PlaceIsCompetitionRank(board: seq<Entry>, i: nat)
    requires Descending(board) && i < |board|
    ensures Place(board, i) == 1 + CountAbove(Counts(board), board[i].count)
  {
    var c := Counts(board);
    var p := Place(board, i);
    DescendingCounts(board);
    forall k | p - 1 <= k <= i ensures c[k] == c[i] {
      assert board[k].count == board[i].count;
    }
    RunStartIsRank(c, i, p);
  }

  // ---------------------------------------------------------------------
  // Rendering

  /** format_number: `"{:,}".format(n)`, a comma between groups of three
      digits, after the sign of a negative number. Its properties are the
      lemmas below, so that the proofs about whole board lines do not carry
      them. */
  function FormatNumber(n: int): string
  {
    var digits := NatToString(Abs(n));
    GroupStartsWithDigit(digits);  // the grouped digits are never empty
    if n < 0 then "-" + Group(digits) else Group(digits)
  }

  /** A formatted number starts with `-` exactly when it is negative, and
      dropping the sign and the commas gives back its plain decimal digits. */
  lemma FormatNumberDigits(n: int)
    ensures |FormatNumber(n)| > 0 && (FormatNumber(n)[0] == '-' <==> n < 0)
    ensures WithoutCommas(Unsigned(FormatNumber(n), n)) == NatToString(Abs(n))
  {
    var digits := NatToString(Abs(n));
    assert ',' !in digits;
    GroupKeepsDigits(digits);
    GroupStartsWithDigit(digits);
    if n < 0 {
      var r := FormatNumber(n);
      assert r == "-" + Group(digits);
      assert r[1..] == Group(digits);
    }
  }

  function Abs(n: int): nat
  {
    if n < 0 then -n else n
  }

  /** The text after the sign of a formatted `n`. */
  function Unsigned(r: string, n: int): string
    requires |r| > 0
  {
    if n < 0 then r[1..] else r
  }

  /** In a formatted number the commas sit exactly where a multiple of four
      characters remain, so the digits come in groups of three. */
  lemma FormatNumberGroups(n: int)
    ensures |FormatNumber(n)| > 0
    ensures var g := Unsigned(FormatNumber(n), n);
      forall k :: 0 <= k < |g| ==> (g[k] == ',' <==> (|g| - k) % 4 == 0)
  {
    var digits := NatToString(Abs(n));
    assert ',' !in digits;
    GroupCommaPlaces(digits);
    GroupStartsWithDigit(digits);
    if n < 0 {
      var r := FormatNumber(n);
      assert r == "-" + Group(digits);
      assert r[1..] == Group(digits);
    }
  }

  /** A grouped number starts with its first digit. */
  lemma {:induction false} GroupStartsWithDigit(digits: string)
    requires |digits| > 0
    ensures |Group(digits)| > 0 && Group(digits)[0] == digits[0]
    decreases |digits|
  {
    if |digits| > 3 {
      GroupStartsWithDigit(digits[..|digits| - 3]);
    }
  }

  function Group(digits: string): string
    decreases |digits|
  {
    if |digits| <= 3 then digits else Group(digits[..|digits| - 3]) + "," + digits[|digits| - 3..]
  }

  function WithoutCommas(s: string): (r: string)
    ensures |r| <= |s|
  {
    if s == [] then [] else (if s[0] == ',' then [] else [s[0]]) + WithoutCommas(s[1..])
  }

  lemma {:induction false} WithoutCommasAppend(a: string, b: string)
    ensures WithoutCommas(a + b) == WithoutCommas(a) + WithoutCommas(b)
  {
    if a == [] {
      assert a + b == b;
    } else {
      var head := if a[0] == ',' then [] else [a[0]];
      assert (a + b)[0] == a[0] && (a + b)[1..] == a[1..] + b;
      WithoutCommasAppend(a[1..], b);
      calc {
        WithoutCommas(a + b);
        head + WithoutCommas(a[1..] + b);
        head + (WithoutCommas(a[1..]) + WithoutCommas(b));
        (head + WithoutCommas(a[1..])) + WithoutCommas(b);
        WithoutCommas(a) + WithoutCommas(b);
      }
    }
  }

  lemma {:induction false} WithoutCommasNoop(s: string)
    requires ',' !in s
    ensures WithoutCommas(s) == s
  {
    if s != [] {
      WithoutCommasNoop(s[1..]);
    }
  }

  /** Grouping only inserts commas: removing them gives the digits back. */
  lemma {:induction false} GroupKeepsDigits(digits: string)
    requires ',' !in digits
    ensures WithoutCommas(Group(digits)) == digits
    decreases |digits|
  {
    if |digits| <= 3 {
      WithoutCommasNoop(digits);
    } else {
      var head, tail := digits[..|digits| - 3], digits[|digits| - 3..];
      assert digits == head + tail;
      GroupKeepsDigits(head);
      WithoutCommasAppend(Group(head) + ",", tail);
      WithoutCommasAppend(Group(head), ",");
      WithoutCommasNoop(tail);
    }
  }

  /** The commas sit exactly where a multiple of four characters remain,
      so every comma is followed by three digits before the next one. */
  lemma {:induction false} GroupCommaPlaces(digits: string)
    requires ',' !in digits && |digits| > 0
    ensures forall k :: 0 <= k < |Group(digits)| ==> (Group(digits)[k] == ',' <==> (|Group(digits)| - k) % 4 == 0)
    decreases |digits|
  {
    var r := Group(digits);
    if |digits| > 3 {
      var head, tail := digits[..|digits| - 3], digits[|digits| - 3..];
      assert ',' !in head by {
        assert forall k :: 0 <= k < |head| ==> head[k] == digits[k];
      }
      GroupCommaPlaces(head);
      var g := Group(head);
      assert r == g + "," + tail;
      forall k | 0 <= k < |r| ensures r[k] == ',' <==> (|r| - k) % 4 == 0 {
        if k < |g| {
          assert r[k] == g[k];
          assert |r| - k == (|g| - k) + 4;
        } else if k > |g| {
          assert r[k] == tail[k - |g| - 1];
          assert tail[k - |g| - 1] in digits;
        }
      }
    }
  }

  lemma FormatThousand()
    ensures FormatNumber(1000) == "1,000"
  {
  }

  /** The plural suffix of the unit word: none for exactly one. */
  function Plural(n: int): string
  {
    if n != 1 then "s" else ""
  }

  /** One leaderboard line, `<place>‍. <handle> - <count> <unit>[s]`. */
  function StandingLine(place: nat, e: Entry, unit: string): string
  {
    NatToString(place) + "\U{200D}. " + e.handle + " - " + FormatNumber(e.count) + " " + unit + Plural(e.count)
  }

  /** A board line begins with its place, which a non-digit ends. */
  lemma StandingLineStartsWithPlace(place: nat, e: Entry, unit: string)
    ensures var line, digits := StandingLine(place, e, unit), NatToString(place);
      |digits| < |line| && line[..|digits|] == digits && !IsDigit(line[|digits|])
  {
    var digits := NatToString(place);
    var rest := e.handle + " - " + FormatNumber(e.count) + " " + unit + Plural(e.count);
    assert StandingLine(place, e, unit) == digits + "\U{200D}. " + rest;
    AppendKeepsPrefix(digits, "\U{200D}. ", rest);
  }

  /** A board line ends with the unit word, plural unless the count is
      exactly one. */
  lemma StandingLineEndsWithUnit(place: nat, e: Entry, unit: string)
    ensures var line, tail := StandingLine(place, e, unit), if e.count == 1 then " " + unit else " " + unit + "s";
      |tail| <= |line| && line[|line| - |tail|..] == tail
  {
    var front := NatToString(place) + "\U{200D}. " + e.handle + " - " + FormatNumber(e.count);
    var tail := " " + unit + Plural(e.count);
    assert StandingLine(place, e, unit) == front + tail;
    assert (front + tail)[|front|..] == tail;
  }

  lemma AppendKeepsPrefix(a: string, b: string, c: string)
    requires |b| > 0
    ensures (a + b + c)[..|a|] == a && (a + b + c)[|a|] == b[0]
  {
    assert (a + b + c)[..|a|] == a;
  }

  /** The place-and-line loop shared by both leaderboards. */
  method RenderBoard(board: seq<Entry>, unit: string) returns (lines: seq<string>)
    ensures |lines| == |board|
    ensures forall i {:trigger lines[i]} :: 0 <= i < |board| ==> lines[i] == StandingLine(Place(board, i), board[i], unit)
  {
    var currPlace := 1;
    lines := [];
    for i := 0 to |board|
      invariant |lines| == i
      invariant i > 0 ==> currPlace == Place(board, i - 1)
      invariant forall k {:trigger lines[k]} :: 0 <= k < i ==> lines[k] == StandingLine(Place(board, k), board[k], unit)
    {
      if i == 0 || board[i - 1].count != board[i].count {
        currPlace := i + 1;
      }
      lines := lines + [StandingLine(currPlace, board[i], unit)];
    }
  }

  function StreakEntries(rows: seq<HandleRow>): (r: seq<Entry>)
    ensures |r| == |rows| && forall i :: 0 <= i < |rows| ==> r[i] == Entry(Streak(rows[i].solved), rows[i].cfHandle)
  {
    seq(|rows|, i requires 0 <= i < |rows| => Entry(Streak(rows[i].solved), rows[i].cfHandle))
  }

  function SolveEntries(rows: seq<HandleRow>): (r: seq<Entry>)
    ensures |r| == |rows| && forall i :: 0 <= i < |rows| ==> r[i] == Entry(CountTrue(rows[i].solved), rows[i].cfHandle)
  {
    seq(|rows|, i requires 0 <= i < |rows| => Entry(CountTrue(rows[i].solved), rows[i].cfHandle))
  }

  /** The outer loop of streak_leaderboard: one `[streak, handle]` pair per row. */
  method StreakPairs(users: seq<HandleRow>) returns (userLb: seq<Entry>)
    ensures userLb == StreakEntries(users)
  {
    userLb := [];
    for i := 0 to |users|
      invariant |userLb| == i
      invariant forall k :: 0 <= k < i ==> userLb[k] == Entry(Streak(users[k].solved), users[k].cfHandle)
    {
      var streak := StreakOf(users[i].solved);
      userLb := userLb + [Entry(streak, users[i].cfHandle)];
    }
  }

  /** The outer loop of solves_leaderboard: one `[solved, handle]` pair per row. */
  method SolvePairs(users: seq<HandleRow>) returns (userLb: seq<Entry>)
    ensures userLb == SolveEntries(users)
  {
    userLb := [];
    for i := 0 to |users|
      invariant |userLb| == i
      invariant forall k :: 0 <= k < i ==> userLb[k] == Entry(CountTrue(users[k].solved), users[k].cfHandle)
    {
      var solved := SolvesOf(users[i].solved);
      userLb := userLb + [Entry(solved, users[i].cfHandle)];
    }
  }

  /** The leaderboard text for a list of pairs: the pairs from largest to
      smallest, each on a line with its competition place, one more than the
      number of strictly larger counts. */
  function RankedBoard(pairs: seq<Entry>, unit: string): seq<string>
  {
    var board := SortDescending(pairs);
    seq(|board|, i requires 0 <= i < |board| => StandingLine(1 + CountAbove(Counts(board), board[i].count), board[i], unit))
  }

  /** Lines rendered at the loop's places are the lines at competition ranks. */
  lemma SameLines(board: seq<Entry>, lines: seq<string>, unit: string)
    requires Descending(board) && |lines| == |board|
    requires forall i {:trigger lines[i]} :: 0 <= i < |board| ==> lines[i] == StandingLine(Place(board, i), board[i], unit)
    ensures lines == seq(|board|, i requires 0 <= i < |board| => StandingLine(1 + CountAbove(Counts(board), board[i].count), board[i], unit))
  {
    var expected := seq(|board|, i requires 0 <= i < |board| => StandingLine(1 + CountAbove(Counts(board), board[i].count), board[i], unit));
    forall i | 0 <= i < |board| ensures lines[i] == expected[i] {
      var rank := 1 + CountAbove(Counts(board), board[i].count);
      assert Place(board, i) == rank by {
        PlaceIsCompetitionRank(board, i);
      }
      assert lines[i] == StandingLine(Place(board, i), board[i], unit);
      assert expected[i] == StandingLine(rank, board[i], unit);
    }
  }

  /** The tail shared by both leaderboards: sort and reverse the pairs, then
      give each line its place as the loop over `curr_place` does. */
  method RankedLines(userLb: seq<Entry>, unit: string) returns (lines: seq<string>)
    ensures lines == RankedBoard(userLb, unit)
  {
    var board := SortDescending(userLb);
    lines := RenderBoard(board, unit);
    SameLines(board, lines, unit);
  }

  /** streak_leaderboard over every stored handle row, in every guild. */
  method StreakLeaderboard(db: Database) returns (lines: seq<string>)
    ensures lines == RankedBoard(StreakEntries(db.handles), "day")
  {
    var users := db.GetAllHandles(None);
    var userLb := StreakPairs(users);
    lines := RankedLines(userLb, "day");
  }

  /** solves_leaderboard over every stored handle row, in every guild. */
  method SolvesLeaderboard(db: Database) returns (lines: seq<string>)
    ensures lines == RankedBoard(SolveEntries(db.handles), "problem")
  {
    var users := db.GetAllHandles(None);
    var userLb := SolvePairs(users);
    lines := RankedLines(userLb, "problem");
  }
}
