/** The per-year tally of seed_actions_by_year.py's `__main__` block, on
    the sequence of start years: the dictionary it builds and the lines it
    prints in `sorted` year order. */
module YearTally {

  /** How often `y` occurs in `ys`. */
  function CountOf(ys: seq<int>, y: int): nat {
    if ys == [] then 0
    else CountOf(ys[..|ys| - 1], y) + (if ys[|ys| - 1] == y then 1 else 0)
  }

  /** The dictionary the loop builds: `setdefault(year, 0)` and `+= 1` for
      each year in turn. */
  function Tally(ys: seq<int>): map<int, nat> {
    if ys == [] then map[]
    else
      var m := Tally(ys[..|ys| - 1]);
      var y := ys[|ys| - 1];
      m[y := (if y in m then m[y] else 0) + 1]
  }

  /** The tally has a key for exactly the years that occur, and its value
      for a year is the number of Actions started in it. */
  lemma {:induction false} TallyCounts(ys: seq<int>)
    ensures forall y :: y in Tally(ys) <==> y in ys
    ensures forall y :: y in Tally(ys) ==> Tally(ys)[y] == CountOf(ys, y) && Tally(ys)[y] >= 1
  {
    if ys != [] {
      var init := ys[..|ys| - 1];
      TallyCounts(init);
      assert ys == init + [ys[|ys| - 1]];
      forall y ensures y in ys <==> y in init || y == ys[|ys| - 1] {
        if y in ys {
          var k :| 0 <= k < |ys| && ys[k] == y;
          if k < |init| {
            assert init[k] == y;
          }
        }
      }
      forall y | y !in init ensures CountOf(init, y) == 0 {
        CountAbsent(init, y);
      }
    }
  }

  /** A year that does not occur is counted zero times. */
  lemma {:induction false} CountAbsent(ys: seq<int>, y: int)
    requires y !in ys
    ensures CountOf(ys, y) == 0
  {
    if ys != [] {
      assert ys[..|ys| - 1] <= ys;
      CountAbsent(ys[..|ys| - 1], y);
    }
  }

  predicate Ascending(ks: seq<int>) {
    forall i, j :: 0 <= i < j < |ks| ==> ks[i] < ks[j]
  }

  /** `ks` with `y` put in its place, unless it is already there. */
  function Insert(ks: seq<int>, y: int): seq<int> {
    if ks == [] then [y]
    else if y < ks[0] then [y] + ks
    else if y == ks[0] then ks
    else [ks[0]] + Insert(ks[1..], y)
  }

  lemma {:induction false} InsertShape(ks: seq<int>, y: int)
    requires Ascending(ks)
    ensures Ascending(Insert(ks, y))
    ensures forall z :: z in Insert(ks, y) <==> z in ks || z == y
    decreases |ks|
  {
    if ks != [] && y > ks[0] {
      var rest := ks[1..];
      assert Ascending(rest);
      InsertShape(rest, y);
      ConsAbove(ks, y, Insert(rest, y));
    } else if ks != [] && y < ks[0] {
      ConsBelow(ks, y);
    }
  }

  /** Putting the head back in front of the insertion into the tail. */
  lemma ConsAbove(ks: seq<int>, y: int, r: seq<int>)
    requires Ascending(ks) && ks != [] && y > ks[0]
    requires Ascending(r) && forall z :: z in r <==> z in ks[1..] || z == y
    ensures Ascending([ks[0]] + r)
    ensures forall z :: z in [ks[0]] + r <==> z in ks || z == y
  {
    var rest := ks[1..];
    assert ks == [ks[0]] + rest;
    assert forall i :: 0 <= i < |r| ==> ks[0] < r[i] by {
      forall i | 0 <= i < |r| ensures ks[0] < r[i] {
        assert r[i] in r;
        if r[i] != y {
          var k :| 0 <= k < |rest| && rest[k] == r[i];
          assert ks[k + 1] == r[i];
        }
      }
    }
    var w := [ks[0]] + r;
    forall i, j | 0 <= i < j < |w| ensures w[i] < w[j] {
      if i == 0 {
        assert w[j] == r[j - 1];
      } else {
        assert w[i] == r[i - 1] && w[j] == r[j - 1];
      }
    }
  }

  /** A year below the first goes in front. */
  lemma ConsBelow(ks: seq<int>, y: int)
    requires Ascending(ks) && ks != [] && y < ks[0]
    ensures Ascending([y] + ks)
  {
    var w := [y] + ks;
    forall i, j | 0 <= i < j < |w| ensures w[i] < w[j] {
      if i == 0 {
        assert ks[0] <= ks[j - 1];
      } else {
        assert w[i] == ks[i - 1] && w[j] == ks[j - 1];
      }
    }
  }

  /** `sorted(counts)`: the distinct years, ascending. */
  function SortedYears(ys: seq<int>): seq<int> {
    if ys == [] then [] else Insert(SortedYears(ys[..|ys| - 1]), ys[|ys| - 1])
  }

  /** The sorted years ascend and are exactly the years that occur, which
      are the keys of the tally. */
  lemma {:induction false} SortedYearsShape(ys: seq<int>)
    ensures Ascending(SortedYears(ys))
    ensures forall z :: z in SortedYears(ys) <==> z in ys
    ensures forall z :: z in SortedYears(ys) <==> z in Tally(ys)
  {
    TallyCounts(ys);
    if ys != [] {
      var init := ys[..|ys| - 1];
      SortedYearsShape(init);
      InsertShape(SortedYears(init), ys[|ys| - 1]);
      assert ys == init + [ys[|ys| - 1]];
      forall z ensures z in ys <==> z in init || z == ys[|ys| - 1] {
        if z in ys {
          var k :| 0 <= k < |ys| && ys[k] == z;
          if k < |init| {
            assert init[k] == z;
          }
        }
      }
    }
  }

  /** The lines printed after "Created N actions:", as `(year, count)`
      pairs in ascending year order, for the start years `ys`. */
  function Report(ys: seq<int>): (r: seq<(int, nat)>)
    ensures |r| == |SortedYears(ys)|
  {
    var counts := Tally(ys);
    var ks := SortedYears(ys);
    SortedYearsShape(ys);
    assert forall i :: 0 <= i < |ks| ==> ks[i] in ks;
    seq(|ks|, i requires 0 <= i < |ks| => (ks[i], counts[ks[i]]))
  }

  function SumOver(ks: seq<int>, ys: seq<int>): nat {
    if ks == [] then 0 else CountOf(ys, ks[0]) + SumOver(ks[1..], ys)
  }

  lemma {:induction false} SumOverSnoc(ks: seq<int>, ys: seq<int>, x: int)
    ensures SumOver(ks, ys + [x]) == SumOver(ks, ys) + CountOf(ks, x)
  {
    assert (ys + [x])[..|ys + [x]| - 1] == ys;
    if ks != [] {
      SumOverSnoc(ks[1..], ys, x);
      CountFront(ks, x);
    }
  }

  /** Counting from the front gives the same number. */
  lemma {:induction false} CountFront(ks: seq<int>, x: int)
    requires ks != []
    ensures CountOf(ks, x) == (if ks[0] == x then 1 else 0) + CountOf(ks[1..], x)
  {
    if |ks| > 1 {
      var init := ks[..|ks| - 1];
      CountFront(init, x);
      assert init[1..] == ks[1..][..|ks[1..]| - 1];
    } else {
      assert ks[..0] == [];
      assert ks[1..] == [];
    }
  }

  /** In an ascending sequence every year occurs at most once. */
  lemma {:induction false} CountDistinct(ks: seq<int>, x: int)
    requires Ascending(ks)
    ensures CountOf(ks, x) == if x in ks then 1 else 0
  {
    if ks != [] {
      var init := ks[..|ks| - 1];
      assert Ascending(init);
      CountDistinct(init, x);
      assert ks == init + [ks[|ks| - 1]];
      if ks[|ks| - 1] == x {
        assert x !in init by {
          forall i | 0 <= i < |init| ensures init[i] != x {
            assert init[i] == ks[i] < ks[|ks| - 1];
          }
        }
      }
    }
  }

  /** Summing the counts over ascending years that cover every year counts
      every Action once. */
  lemma {:induction false} SumOverAll(ks: seq<int>, ys: seq<int>)
    requires Ascending(ks)
    requires forall y :: y in ys ==> y in ks
    ensures SumOver(ks, ys) == |ys|
  {
    if ys == [] {
      SumOverEmpty(ks);
    } else {
      var init := ys[..|ys| - 1];
      var x := ys[|ys| - 1];
      assert ys == init + [x];
      SumOverAll(ks, init);
      SumOverSnoc(ks, init, x);
      CountDistinct(ks, x);
    }
  }

  lemma {:induction false} SumOverEmpty(ks: seq<int>)
    ensures SumOver(ks, []) == 0
  {
    if ks != [] {
      SumOverEmpty(ks[1..]);
    }
  }

  function ReportSum(r: seq<(int, nat)>): nat {
    if r == [] then 0 else r[0].1 + ReportSum(r[1..])
  }

  lemma {:induction false} ReportSumIsSumOver(ks: seq<int>, ys: seq<int>, r: seq<(int, nat)>)
    requires |r| == |ks|
    requires forall i :: 0 <= i < |r| ==> r[i] == (ks[i], CountOf(ys, ks[i]))
    ensures ReportSum(r) == SumOver(ks, ys)
  {
    if r != [] {
      ReportSumIsSumOver(ks[1..], ys, r[1..]);
    }
  }

  /** Entry `i` of the report is the `i`-th sorted year with its count. */
  lemma ReportEntries(ys: seq<int>)
    ensures |Report(ys)| == |SortedYears(ys)|
    ensures forall i :: 0 <= i < |Report(ys)| ==>
              Report(ys)[i] == (SortedYears(ys)[i], CountOf(ys, SortedYears(ys)[i])) && CountOf(ys, SortedYears(ys)[i]) >= 1
  {
    var ks := SortedYears(ys);
    TallyCounts(ys);
    SortedYearsShape(ys);
    assert forall i :: 0 <= i < |ks| ==> ks[i] in ks;
  }

  /** The report lists each year that occurs exactly once, in strictly
      ascending order, with the number of Actions started in it; its
      counts add up to the number of created Actions. */
  lemma ReportShape(ys: seq<int>)
    ensures var r := Report(ys);
            && (forall i, j :: 0 <= i < j < |r| ==> r[i].0 < r[j].0)
            && (forall i :: 0 <= i < |r| ==> r[i].1 == CountOf(ys, r[i].0) && r[i].1 >= 1)
            && (forall i :: 0 <= i < |r| ==> r[i].0 in ys)
            && (forall k :: 0 <= k < |ys| ==> exists i :: 0 <= i < |r| && r[i].0 == ys[k])
            && ReportSum(r) == |ys|
  {
    var ks := SortedYears(ys);
    var r := Report(ys);
    assert Ascending(ks) && forall z :: z in ks <==> z in ys by {
      SortedYearsShape(ys);
    }
    assert forall i :: 0 <= i < |r| ==> r[i].1 == CountOf(ys, r[i].0) && r[i].1 >= 1 && r[i].0 in ys by {
      ReportEntries(ys);
      SortedYearsShape(ys);
      assert forall i :: 0 <= i < |ks| ==> ks[i] in ks;
    }
    assert forall k :: 0 <= k < |ys| ==> exists i :: 0 <= i < |r| && r[i].0 == ys[k] by {
      ReportEntries(ys);
      forall k | 0 <= k < |ys| ensures exists i :: 0 <= i < |r| && r[i].0 == ys[k] {
        assert ys[k] in ys;
        var i :| 0 <= i < |ks| && ks[i] == ys[k];
        assert r[i].0 == ys[k];
      }
    }
    assert ReportSum(r) == |ys| by {
      ReportEntries(ys);
      ReportSumIsSumOver(ks, ys, r);
      SumOverAll(ks, ys);
    }
  }

  /** Two ascending sequences holding the same years are equal. */
  lemma {:induction false} AscendingUnique(a: seq<int>, b: seq<int>)
    requires Ascending(a) && Ascending(b)
    requires forall y :: y in a <==> y in b
    ensures a == b
  {
    if a == [] {
      assert forall i :: 0 <= i < |b| ==> b[i] in b;
    } else {
      assert a[0] in a;
      assert a[0] == b[0] by {
        assert a[0] in b && b[0] in a;
        var i :| 0 <= i < |b| && b[i] == a[0];
        var j :| 0 <= j < |a| && a[j] == b[0];
        assert b[0] <= b[i] && a[0] <= a[j];
      }
      assert forall y :: y in a[1..] <==> y in b[1..] by {
        forall y ensures y in a[1..] <==> y in b[1..] {
          if y in a[1..] {
            var i :| 1 <= i < |a| && a[i] == y;
            assert y in b && y != b[0];
          }
          if y in b[1..] {
            var i :| 1 <= i < |b| && b[i] == y;
            assert y in a && y != a[0];
          }
        }
      }
      assert Ascending(a[1..]) && Ascending(b[1..]);
      AscendingUnique(a[1..], b[1..]);
      assert a == [a[0]] + a[1..] && b == [b[0]] + b[1..];
    }
  }

  lemma {:induction false} CountAppend(a: seq<int>, b: seq<int>, y: int)
    ensures CountOf(a + b, y) == CountOf(a, y) + CountOf(b, y)
  {
    if b != [] {
      assert (a + b)[..|a + b| - 1] == a + b[..|b| - 1];
      CountAppend(a, b[..|b| - 1], y);
    } else {
      assert a + b == a;
    }
  }

  /** A run of one year counts its length for that year and nothing for
      any other. */
  lemma {:induction false} CountConst(zs: seq<int>, x: int, y: int)
    requires forall k :: 0 <= k < |zs| ==> zs[k] == x
    ensures CountOf(zs, y) == if x == y then |zs| else 0
  {
    if zs != [] {
      CountConst(zs[..|zs| - 1], x, y);
    }
  }

  lemma DefaultCounts(ys: seq<int>)
    requires |ys| == 27
    requires forall k :: 0 <= k < 4 ==> ys[k] == 2024
    requires forall k :: 4 <= k < 6 ==> ys[k] == 2025
    requires forall k :: 6 <= k < 27 ==> ys[k] == 2026
    ensures CountOf(ys, 2024) == 4 && CountOf(ys, 2025) == 2 && CountOf(ys, 2026) == 21
    ensures forall y :: y in ys <==> y == 2024 || y == 2025 || y == 2026
  {
    var a, b, c := ys[..4], ys[4..6], ys[6..];
    assert ys == a + b + c;
    forall y | y == 2024 || y == 2025 || y == 2026
      ensures CountOf(ys, y) == (if y == 2024 then 4 else if y == 2025 then 2 else 21)
    {
      CountAppend(a + b, c, y);
      CountAppend(a, b, y);
      CountConst(a, 2024, y);
      CountConst(b, 2025, y);
      CountConst(c, 2026, y);
    }
    assert ys[0] == 2024 && ys[4] == 2025 && ys[6] == 2026;
  }

  /** Such years are reported as four for 2024, two for 2025 and twenty-one
      for 2026, in that order. */
  lemma DefaultReport(ys: seq<int>)
    requires |ys| == 27
    requires forall k :: 0 <= k < 4 ==> ys[k] == 2024
    requires forall k :: 4 <= k < 6 ==> ys[k] == 2025
    requires forall k :: 6 <= k < 27 ==> ys[k] == 2026
    ensures Report(ys) == [(2024, 4), (2025, 2), (2026, 21)]
  {
    DefaultCounts(ys);
    TallyCounts(ys);
    SortedYearsShape(ys);
    var ks := SortedYears(ys);
    AscendingUnique(ks, [2024, 2025, 2026]);
    var r := Report(ys);
    assert r[0] == (2024, 4) && r[1] == (2025, 2) && r[2] == (2026, 21);
  }
}

module SeedActionsByYear {
  import opened Calendar
  import opened SeedActions
  import opened YearTally

  /** Every created Action has a start date. */
  predicate AllStarted(created: seq<Planned>) {
    forall k :: 0 <= k < |created| ==> created[k].progressStartedAt.Some?
  }

  /** `a.progress_started_at.year` for each created Action, in order. */
  function Years(created: seq<Planned>): (r: seq<int>)
    requires AllStarted(created)
    ensures |r| == |created|
    ensures forall k :: 0 <= k < |r| ==> r[k] == created[k].progressStartedAt.value.year
  {
    seq(|created|, k requires 0 <= k < |created| => created[k].progressStartedAt.value.year)
  }

  /** The counting loop of `__main__`. */
  method CountByYear(created: seq<Planned>) returns (counts: map<int, nat>)
    requires AllStarted(created)
    ensures counts == Tally(Years(created))
  {
    counts := map[];
    var k := 0;
    while k < |created|
      invariant 0 <= k <= |created|
      invariant counts == Tally(Years(created)[..k])
    {
      var year := created[k].progressStartedAt.value.year;
      if year !in counts {
        counts := counts[year := 0];
      }
      assert Years(created)[..k + 1][..k] == Years(created)[..k];
      counts := counts[year := counts[year] + 1];
      k := k + 1;
    }
    assert Years(created)[..|created|] == Years(created);
  }

  /** The default plan starts four Actions in 2024, then two in 2025, then
      twenty-one in 2026. */
  lemma DefaultYears()
    ensures AllStarted(Plan(DefaultYearCounts))
    ensures var ys := Years(Plan(DefaultYearCounts));
            && |ys| == 27
            && (forall k :: 0 <= k < 4 ==> ys[k] == 2024)
            && (forall k :: 4 <= k < 6 ==> ys[k] == 2025)
            && (forall k :: 6 <= k < 27 ==> ys[k] == 2026)
  {
    DefaultPlan();
  }

  /** So `recreate_actions()` followed by the tally reports 2024: 4,
      2025: 2 and 2026: 21. */
  lemma DefaultTally()
    ensures AllStarted(Plan(DefaultYearCounts))
    ensures Report(Years(Plan(DefaultYearCounts))) == [(2024, 4), (2025, 2), (2026, 21)]
  {
    DefaultYears();
    DefaultReport(Years(Plan(DefaultYearCounts)));
  }
}
