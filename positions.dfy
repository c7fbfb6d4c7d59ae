/**
 * The two read-only queries of main.go over the roster: calculatePosition (the mean
 * experience of every position) and findPosition (the position with the smallest
 * mean, and its employees in roster order).
 *
 * Go ranges over a map in an unspecified order. The methods model that with a
 * choice (`:|`) among the keys not yet visited, so what they promise holds for
 * every order; ScanMin, the selection loop exactly as written, takes the order as
 * an explicit parameter instead.
 */
module PositionStats {
  import opened Records

  /** The records of s whose position is exactly p, in roster order. */
  function WithPosition(s: seq<Employee>, p: string): seq<Employee>
  {
    if s == [] then []
    else WithPosition(s[..|s| - 1], p) + (if s[|s| - 1].position == p then [s[|s| - 1]] else [])
  }

  /** The total experience of a group of records. */
  function TotalExperience(g: seq<Employee>): real
  {
    if g == [] then 0.0 else TotalExperience(g[..|g| - 1]) + g[|g| - 1].experience
  }

  /** The distinct positions of the roster. */
  function Positions(s: seq<Employee>): set<string>
  {
    if s == [] then {} else Positions(s[..|s| - 1]) + {s[|s| - 1].position}
  }

  /** A position occurs in the roster exactly when it has at least one record. */
  lemma {:induction false} PositionsHaveRecords(s: seq<Employee>)
    ensures forall p :: p in Positions(s) <==> WithPosition(s, p) != []
  {
    if s != [] {
      PositionsHaveRecords(s[..|s| - 1]);
    }
  }

  /** The arithmetic mean of the experience of a non-empty group. */
  function Mean(g: seq<Employee>): real
    requires g != []
  {
    TotalExperience(g) / |g| as real
  }

  /** What calculatePosition computes: every distinct position, mapped to the mean experience of its records. */
  function Averages(s: seq<Employee>): map<string, real>
  {
    PositionsHaveRecords(s);
    map p | p in Positions(s) :: Mean(WithPosition(s, p))
  }

  /** Appending a record extends the group of its position, and no other group. */
  lemma AppendToGroup(s: seq<Employee>, e: Employee, p: string)
    ensures e.position == p ==> WithPosition(s + [e], p) == WithPosition(s, p) + [e]
    ensures e.position != p ==> WithPosition(s + [e], p) == WithPosition(s, p)
  {
    assert (s + [e])[..|s|] == s;
  }

  lemma AppendPosition(s: seq<Employee>, e: Employee)
    ensures Positions(s + [e]) == Positions(s) + {e.position}
  {
    assert (s + [e])[..|s|] == s;
  }

  lemma AppendTotal(g: seq<Employee>, e: Employee)
    ensures TotalExperience(g + [e]) == TotalExperience(g) + e.experience
  {
    assert (g + [e])[..|g|] == g;
  }

  lemma {:induction false} AbsentPositionHasNoRecords(s: seq<Employee>, p: string)
    requires p !in Positions(s)
    ensures WithPosition(s, p) == []
  {
    if s != [] {
      AbsentPositionHasNoRecords(s[..|s| - 1], p);
    }
  }

  /** A mean bounded through its total: lo * n <= total gives lo <= total / n. */
  lemma QuotientBounds(total: real, n: real, lo: real, hi: real)
    requires 0.0 < n
    ensures lo * n <= total ==> lo <= total / n
    ensures total <= hi * n ==> total / n <= hi
  {
  }

  /** The records listed for a position are exactly the roster's records with that position. */
  lemma {:induction false} WithPositionMembers(s: seq<Employee>, p: string)
    ensures forall e :: e in WithPosition(s, p) <==> e in s && e.position == p
  {
    if s != [] {
      WithPositionMembers(s[..|s| - 1], p);
      assert s == s[..|s| - 1] + [s[|s| - 1]];
    }
  }

  /** A roster has no positions exactly when it has no records. */
  lemma NoPositionsIffEmpty(s: seq<Employee>)
    ensures Positions(s) == {} <==> s == []
  {
    if s != [] {
      assert s[|s| - 1].position in Positions(s);
    }
  }

  lemma {:induction false} TotalAtLeast(g: seq<Employee>, lo: real)
    requires forall e :: e in g ==> lo <= e.experience
    ensures lo * |g| as real <= TotalExperience(g)
  {
    if g != [] {
      assert g[..|g| - 1] + [g[|g| - 1]] == g;
      TotalAtLeast(g[..|g| - 1], lo);
    }
  }

  lemma {:induction false} TotalAtMost(g: seq<Employee>, hi: real)
    requires forall e :: e in g ==> e.experience <= hi
    ensures TotalExperience(g) <= hi * |g| as real
  {
    if g != [] {
      assert g[..|g| - 1] + [g[|g| - 1]] == g;
      TotalAtMost(g[..|g| - 1], hi);
    }
  }

  /** A position's average is the mean of its non-empty group. */
  lemma AverageIsMean(s: seq<Employee>, p: string)
    requires p in Averages(s)
    ensures WithPosition(s, p) != [] && Averages(s)[p] == Mean(WithPosition(s, p))
  {
    PositionsHaveRecords(s);
  }

  lemma MeanAtLeast(g: seq<Employee>, lo: real)
    requires g != []
    requires forall e :: e in g ==> lo <= e.experience
    ensures lo <= Mean(g)
  {
    TotalAtLeast(g, lo);
    QuotientBounds(TotalExperience(g), |g| as real, lo, lo);
  }

  lemma MeanAtMost(g: seq<Employee>, hi: real)
    requires g != []
    requires forall e :: e in g ==> e.experience <= hi
    ensures Mean(g) <= hi
  {
    TotalAtMost(g, hi);
    QuotientBounds(TotalExperience(g), |g| as real, hi, hi);
  }

  /** A position's average is no smaller than any lower bound on its records' experience. */
  lemma AverageAtLeast(s: seq<Employee>, p: string, lo: real)
    requires p in Averages(s)
    requires forall e :: e in s && e.position == p ==> lo <= e.experience
    ensures lo <= Averages(s)[p]
  {
    AverageIsMean(s, p);
    WithPositionMembers(s, p);
    MeanAtLeast(WithPosition(s, p), lo);
  }

  /** A position's average is no greater than any upper bound on its records' experience. */
  lemma AverageAtMost(s: seq<Employee>, p: string, hi: real)
    requires p in Averages(s)
    requires forall e :: e in s && e.position == p ==> e.experience <= hi
    ensures Averages(s)[p] <= hi
  {
    AverageIsMean(s, p);
    WithPositionMembers(s, p);
    MeanAtMost(WithPosition(s, p), hi);
  }

  /** With no negative tenure in the roster, no average is negative (so none is the -1 sentinel). */
  lemma NonNegativeAverages(s: seq<Employee>)
    requires forall e :: e in s ==> 0.0 <= e.experience
    ensures forall p :: p in Averages(s) ==> 0.0 <= Averages(s)[p]
  {
    forall p | p in Averages(s)
      ensures 0.0 <= Averages(s)[p]
    {
      AverageAtLeast(s, p, 0.0);
    }
  }

  /** The positions of the roster are the keys of its averages. */
  lemma AveragesKeys(s: seq<Employee>)
    ensures Averages(s).Keys == Positions(s)
  {
    PositionsHaveRecords(s);
  }

  /** The keys of calculatePosition's result are exactly the positions some record holds. */
  lemma AveragesKeysArePositions(s: seq<Employee>, p: string)
    ensures p in Averages(s) <==> exists e :: e in s && e.position == p
  {
    AveragesKeys(s);
    PositionsHaveRecords(s);
    WithPositionMembers(s, p);
    if p in Averages(s) {
      var g := WithPosition(s, p);
      assert g[0] in g;
    }
  }

  /** A map with exactly the keys p and q is the display of its two entries. */
  lemma TwoEntries(m: map<string, real>, p: string, q: string)
    requires m.Keys == {p, q}
    ensures m == map[p := m[p], q := m[q]]
  {
  }

  lemma OneRecordGroups(a: Employee, q: string)
    requires q != a.position
    ensures WithPosition([a], a.position) == [a] && WithPosition([a], q) == []
    ensures Positions([a]) == {a.position}
  {
    var e: seq<Employee> := [];
    assert [a] == e + [a];
    AppendToGroup(e, a, a.position);
    AppendToGroup(e, a, q);
    AppendPosition(e, a);
  }

  lemma PairGroups(a: Employee, b: Employee, q: string)
    requires a.position == b.position && q != a.position
    ensures WithPosition([a, b], a.position) == [a, b] && WithPosition([a, b], q) == []
    ensures Positions([a, b]) == {a.position}
  {
    OneRecordGroups(a, q);
    assert [a, b] == [a] + [b];
    AppendToGroup([a], b, a.position);
    AppendToGroup([a], b, q);
    AppendPosition([a], b);
  }

  lemma ThreeRecordGroups(a: Employee, b: Employee, c: Employee)
    requires a.position == b.position && c.position != a.position
    ensures WithPosition([a, b, c], a.position) == [a, b]
    ensures WithPosition([a, b, c], c.position) == [c]
    ensures Positions([a, b, c]) == {a.position, c.position}
  {
    PairGroups(a, b, c.position);
    assert [a, b, c] == [a, b] + [c];
    AppendToGroup([a, b], c, a.position);
    AppendToGroup([a, b], c, c.position);
    AppendPosition([a, b], c);
  }

  lemma TwoRecordGroups(a: Employee, b: Employee)
    requires a.position != b.position
    ensures WithPosition([a, b], a.position) == [a]
    ensures WithPosition([a, b], b.position) == [b]
    ensures Positions([a, b]) == {a.position, b.position}
  {
    OneRecordGroups(a, b.position);
    assert [a, b] == [a] + [b];
    AppendToGroup([a], b, a.position);
    AppendToGroup([a], b, b.position);
    AppendPosition([a], b);
  }

  /** Two records of one position and a third of another: the averages are the pair's mean and the third's tenure. */
  lemma ExampleAverages(a: Employee, b: Employee, c: Employee)
    requires a.position == b.position && c.position != a.position
    ensures Averages([a, b, c])
      == map[a.position := (a.experience + b.experience) / 2.0, c.position := c.experience]
  {
    var e: seq<Employee> := [];
    ThreeRecordGroups(a, b, c);
    AveragesKeys([a, b, c]);
    assert [a] == e + [a] && [a, b] == [a] + [b] && [c] == e + [c];
    AppendTotal(e, a);
    AppendTotal([a], b);
    AppendTotal(e, c);
    var m := Averages([a, b, c]);
    assert m[a.position] == (a.experience + b.experience) / 2.0;
    assert m[c.position] == c.experience;
    TwoEntries(m, a.position, c.position);
  }

  /** Two records of two different positions: each position averages its one record. */
  lemma TwoPositions(a: Employee, b: Employee)
    requires a.position != b.position
    ensures Averages([a, b]) == map[a.position := a.experience, b.position := b.experience]
  {
    var e: seq<Employee> := [];
    TwoRecordGroups(a, b);
    AveragesKeys([a, b]);
    assert [a] == e + [a] && [b] == e + [b];
    AppendTotal(e, a);
    AppendTotal(e, b);
    var m := Averages([a, b]);
    assert m[a.position] == a.experience;
    assert m[b.position] == b.experience;
    TwoEntries(m, a.position, b.position);
  }

  /**
   * The maps the first loop of calculatePosition builds: for each record in turn, `+=`
   * of its experience into totalExperience and of one into count, a missing entry
   * reading as zero.
   */
  ghost function Totals(s: seq<Employee>): map<string, real>
  {
    if s == [] then map[]
    else
      var t, e := Totals(s[..|s| - 1]), s[|s| - 1];
      t[e.position := (if e.position in t then t[e.position] else 0.0) + e.experience]
  }

  ghost function Counts(s: seq<Employee>): map<string, nat>
  {
    if s == [] then map[]
    else
      var c, e := Counts(s[..|s| - 1]), s[|s| - 1];
      c[e.position := (if e.position in c then c[e.position] else 0) + 1]
  }

  /** The running totals are keyed by the positions, and hold each position's total experience. */
  lemma {:induction false} TotalsAt(s: seq<Employee>, p: string)
    ensures p in Totals(s) <==> p in Positions(s)
    ensures p in Totals(s) ==> Totals(s)[p] == TotalExperience(WithPosition(s, p))
  {
    if s != [] {
      var s', e := s[..|s| - 1], s[|s| - 1];
      TotalsAt(s', p);
      var g := WithPosition(s', p);
      if p == e.position {
        assert WithPosition(s, p) == g + [e];
        AppendTotal(g, e);
        if p !in Totals(s') {
          AbsentPositionHasNoRecords(s', p);
        }
      } else {
        assert WithPosition(s, p) == g;
      }
    }
  }

  /** The running counts are keyed by the positions, and hold each position's number of records. */
  lemma {:induction false} CountsAt(s: seq<Employee>, p: string)
    ensures p in Counts(s) <==> p in Positions(s)
    ensures p in Counts(s) ==> Counts(s)[p] == |WithPosition(s, p)|
  {
    if s != [] {
      var s', e := s[..|s| - 1], s[|s| - 1];
      CountsAt(s', p);
      var g := WithPosition(s', p);
      if p == e.position {
        assert WithPosition(s, p) == g + [e];
        if p !in Counts(s') {
          AbsentPositionHasNoRecords(s', p);
        }
      } else {
        assert WithPosition(s, p) == g;
      }
    }
  }

  /** Each average is the quotient of the running total by the running count, which is positive. */
  lemma AveragesAreQuotients(s: seq<Employee>)
    ensures Totals(s).Keys == Averages(s).Keys && Counts(s).Keys == Averages(s).Keys
    ensures forall p :: p in Averages(s) ==>
      Counts(s)[p] > 0 && Averages(s)[p] == Totals(s)[p] / Counts(s)[p] as real
  {
    PositionsHaveRecords(s);
    forall p
      ensures p in Totals(s) <==> p in Averages(s)
      ensures p in Counts(s) <==> p in Averages(s)
      ensures p in Averages(s) ==> Counts(s)[p] > 0 && Averages(s)[p] == Totals(s)[p] / Counts(s)[p] as real
    {
      TotalsAt(s, p);
      CountsAt(s, p);
    }
  }

  /** The first loop of calculatePosition: per position, the total experience and the number of records. */
  method Accumulate(employees: seq<Employee>) returns (total: map<string, real>, count: map<string, nat>)
    ensures total == Totals(employees) && count == Counts(employees)
  {
    total, count := map[], map[];
    for i := 0 to |employees|
      invariant total == Totals(employees[..i]) && count == Counts(employees[..i])
    {
      var e := employees[i];
      assert employees[..i + 1][..i] == employees[..i];
      var sum := if e.position in total then total[e.position] else 0.0;
      var n := if e.position in count then count[e.position] else 0;
      total := total[e.position := sum + e.experience];
      count := count[e.position := n + 1];
    }
    assert employees[..|employees|] == employees;
  }

  /**
   * calculatePosition: one pass accumulates, per position, the total experience and the
   * number of records; a second pass over the positions divides the one by the other.
   */
  method CalculatePosition(employees: seq<Employee>) returns (average: map<string, real>)
    ensures average == Averages(employees)
  {
    var total, count := Accumulate(employees);
    AveragesAreQuotients(employees);
    average := map[];
    var rest := total.Keys;
    while rest != {}
      invariant rest <= total.Keys
      invariant average.Keys == total.Keys - rest
      invariant forall p :: p in average ==> average[p] == Averages(employees)[p]
      decreases rest
    {
      var p :| p in rest;
      average := average[p := total[p] / count[p] as real];
      rest := rest - {p};
    }
  }

  /** What findPosition reports: the chosen position, its average, and its employees. */
  datatype Selection = Selection(position: string, average: real, members: seq<Employee>)

  /** sel names a position of the roster whose average is the smallest, with all of its records in roster order. */
  ghost predicate IsMinimumSelection(employees: seq<Employee>, sel: Selection)
  {
    var averages := Averages(employees);
    && sel.position in averages
    && sel.average == averages[sel.position]
    && (forall p :: p in averages ==> sel.average <= averages[p])
    && sel.members == WithPosition(employees, sel.position)
  }

  /**
   * findPosition: on an empty roster reports that there is nothing to analyse (None);
   * otherwise selects a position with the smallest average and lists its employees.
   * Among positions with equal averages any may be chosen, as with Go's map order.
   * The selection loop keeps "nothing chosen yet" apart from every real average (see
   * ScanMin for the loop as main.go writes it).
   */
  method FindPosition(employees: seq<Employee>) returns (r: Option<Selection>)
    ensures r.None? <==> employees == []
    ensures r.Some? ==> IsMinimumSelection(employees, r.value)
  {
    var average := CalculatePosition(employees);
    NoPositionsIffEmpty(employees);
    if |average| == 0 {
      return None;
    }
    var minPosition: Option<string> := None;
    var minExperience: real := 0.0;
    var rest := average.Keys;
    while rest != {}
      invariant rest <= average.Keys
      invariant minPosition.None? ==> rest == average.Keys
      invariant minPosition.Some? ==>
        && minPosition.value in average
        && minExperience == average[minPosition.value]
        && forall q :: q in average && q !in rest ==> minExperience <= average[q]
      decreases rest
    {
      var p :| p in rest;
      if minPosition.None? || average[p] < minExperience {
        minPosition, minExperience := Some(p), average[p];
      }
      rest := rest - {p};
    }
    var position := minPosition.value;
    var members := [];
    for i := 0 to |employees|
      invariant members == WithPosition(employees[..i], position)
    {
      assert employees[..i + 1][..i] == employees[..i];
      if employees[i].position == position {
        members := members + [employees[i]];
      }
    }
    assert employees[..|employees|] == employees;
    r := Some(Selection(position, minExperience, members));
  }

  /** On such a roster, when the third record's tenure is below the pair's mean, its position is the answer. */
  lemma ExampleSelection(a: Employee, b: Employee, c: Employee, sel: Selection)
    requires a.position == b.position && c.position != a.position
    requires c.experience < (a.experience + b.experience) / 2.0
    requires IsMinimumSelection([a, b, c], sel)
    ensures sel == Selection(c.position, c.experience, [c])
  {
    var m := Averages([a, b, c]);
    ExampleAverages(a, b, c);
    assert m[a.position] == (a.experience + b.experience) / 2.0 && m[c.position] == c.experience;
    assert sel.average <= m[c.position];
    assert sel.position == c.position;
    ThreeRecordGroups(a, b, c);
  }

  /**
   * The selection loop of findPosition as main.go writes it, over the map's keys in the
   * order `order` in which Go's range happens to visit them. The value -1 of
   * minExperience stands both for "nothing chosen yet" and for an average of -1.
   */
  function ScanMin(average: map<string, real>, order: seq<string>, minPosition: string, minExperience: real): (string, real)
    requires forall p :: p in order ==> p in average
  {
    if order == [] then (minPosition, minExperience)
    else
      var p := order[0];
      if minExperience == -1.0 || average[p] < minExperience
      then ScanMin(average, order[1..], p, average[p])
      else ScanMin(average, order[1..], minPosition, minExperience)
  }

  lemma {:induction false} ScanMinKeepsMinimum(average: map<string, real>, order: seq<string>, minPosition: string, minExperience: real)
    requires forall p :: p in order ==> p in average
    requires forall p :: p in average ==> average[p] != -1.0
    requires minExperience != -1.0 ==> minPosition in average && average[minPosition] == minExperience
    ensures var (q, m) := ScanMin(average, order, minPosition, minExperience);
      && (m != -1.0 <==> minExperience != -1.0 || order != [])
      && (m != -1.0 ==> q in average && average[q] == m)
      && (forall p :: p in order ==> m <= average[p])
      && (minExperience != -1.0 ==> m <= minExperience)
  {
    if order != [] {
      var p := order[0];
      assert forall q :: q in order ==> q == p || q in order[1..];
      if minExperience == -1.0 || average[p] < minExperience {
        ScanMinKeepsMinimum(average, order[1..], p, average[p]);
      } else {
        ScanMinKeepsMinimum(average, order[1..], minPosition, minExperience);
      }
    }
  }

  /**
   * As written, the loop does pick a position with the smallest average, whatever the
   * iteration order, provided that no average equals the -1 sentinel.
   */
  lemma ScanMinFindsMinimum(average: map<string, real>, order: seq<string>)
    requires forall p :: p in average <==> p in order
    requires order != []
    requires forall p :: p in average ==> average[p] != -1.0
    ensures var (q, m) := ScanMin(average, order, "", -1.0);
      q in average && average[q] == m && forall p :: p in average ==> m <= average[p]
  {
    ScanMinKeepsMinimum(average, order, "", -1.0);
  }

  /**
   * Without that proviso it can fail: position A averages -1 and B averages 5; when Go
   * visits A first, A is taken and then overwritten by B, because -1 still reads as
   * "nothing chosen yet". The answer B is not the minimum.
   */
  lemma SentinelHidesMinimum()
    ensures var average := Averages([Employee("X", "A", -1.0), Employee("Y", "B", 5.0)]);
      && average == map["A" := -1.0, "B" := 5.0]
      && ScanMin(average, ["A", "B"], "", -1.0) == ("B", 5.0)
      && average["A"] < average["B"]
  {
    TwoPositions(Employee("X", "A", -1.0), Employee("Y", "B", 5.0));
    assert ["A", "B"][1..] == ["B"];
  }
}
