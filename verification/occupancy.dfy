/**
 * Element/occupancy tables of a species: normalisation of a user-supplied
 * composition (`Batom.check_elements`), the stable descending-occupancy order
 * used for materials, and the main element of a species (`Batom.main_element`).
 */
module Occupancy {
  import opened Wrappers

  type Element = string

  /** One element of a species with its occupancy fraction. */
  type Entry = (Element, real)

  /** An element -> occupancy table, in the insertion order of the Python dict it models. */
  type Composition = seq<Entry>

  /** The pseudo-element that fills an under-occupied site. */
  const Vacancy: Element := "X"

  /** Slack allowed around a total occupancy of 1. */
  const Tolerance: real := 0.000001

  /** Dict keys are unique. */
  predicate DistinctKeys(c: Composition) {
    forall i, j :: 0 <= i < j < |c| ==> c[i].0 != c[j].0
  }

  function Keys(c: Composition): (ks: seq<Element>)
    ensures |ks| == |c|
    ensures forall i :: 0 <= i < |c| ==> ks[i] == c[i].0
  {
    seq(|c|, i requires 0 <= i < |c| => c[i].0)
  }

  /** `sum(elements.values())`, added up left to right. */
  function Total(c: Composition): real {
    if |c| == 0 then 0.0 else c[0].1 + Total(c[1..])
  }

  /** The occupancy stored under key k, or 0 when k is not a key. */
  function OccupancyOf(c: Composition, k: Element): (v: real)
    ensures k !in Keys(c) ==> v == 0.0
    ensures |c| > 0 && c[0].0 == k ==> v == c[0].1
  {
    assert |c| > 0 ==> Keys(c) == [c[0].0] + Keys(c[1..]);
    if |c| == 0 then 0.0 else if c[0].0 == k then c[0].1 else OccupancyOf(c[1..], k)
  }

  /** Python's `d[k] = v`: overwrite in place when k is a key, append otherwise. */
  function Put(c: Composition, k: Element, v: real): (r: Composition)
    ensures |r| >= |c|
    ensures forall i :: 0 <= i < |c| && c[i].0 != k ==> r[i] == c[i]
    ensures OccupancyOf(r, k) == v
  {
    if |c| == 0 then [(k, v)]
    else if c[0].0 == k then [(k, v)] + c[1..]
    else [c[0]] + Put(c[1..], k, v)
  }

  /** The keys of a table with e in front. */
  lemma KeysCons(e: Entry, c: Composition)
    ensures Keys([e] + c) == [e.0] + Keys(c)
  {
  }

  /** Assignment keeps the key order, appending a new key at the end. */
  lemma {:induction false} PutKeys(c: Composition, k: Element, v: real)
    ensures k in Keys(c) ==> Keys(Put(c, k, v)) == Keys(c)
    ensures k !in Keys(c) ==> Keys(Put(c, k, v)) == Keys(c) + [k]
  {
    if |c| == 0 {
      assert Keys([(k, v)]) == [k];
    } else {
      var e, tl := c[0], c[1..];
      assert c == [e] + tl;
      KeysCons(e, tl);
      if e.0 == k {
        KeysCons((k, v), tl);
      } else {
        var t := Put(tl, k, v);
        PutKeys(tl, k, v);
        KeysCons(e, t);
        assert k in Keys(c) <==> k in Keys(tl);
      }
    }
  }

  /** Assignment replaces the old occupancy of k (0 when absent) by v in the total. */
  lemma {:induction false} PutTotal(c: Composition, k: Element, v: real)
    ensures Total(Put(c, k, v)) == Total(c) - OccupancyOf(c, k) + v
  {
    if |c| > 0 && c[0].0 != k {
      PutTotal(c[1..], k, v);
      assert ([c[0]] + Put(c[1..], k, v))[1..] == Put(c[1..], k, v);
    } else if |c| > 0 {
      assert ([(k, v)] + c[1..])[1..] == c[1..];
    }
  }

  /** Assignment of v to k: the keys as `PutKeys` says, and the total with k's old value replaced. */
  lemma {:induction false} PutEffect(c: Composition, k: Element, v: real)
    ensures k !in Keys(c) ==> Keys(Put(c, k, v)) == Keys(c) + [k] && Total(Put(c, k, v)) == Total(c) + v
    ensures k in Keys(c) ==> Keys(Put(c, k, v)) == Keys(c) && Total(Put(c, k, v)) == Total(c) - OccupancyOf(c, k) + v
  {
    PutKeys(c, k, v);
    PutTotal(c, k, v);
  }

  /** Adding the missing fraction v under `'X'` brings the total to 1 less any `'X'` already there. */
  lemma {:induction false} FillVacancy(c: Composition, v: real)
    requires v + Total(c) == 1.0
    ensures var r := Put(c, Vacancy, v);
      && (Vacancy !in Keys(c) ==> Keys(r) == Keys(c) + [Vacancy] && Total(r) == 1.0)
      && (Vacancy in Keys(c) ==> Keys(r) == Keys(c) && Total(r) == 1.0 - OccupancyOf(c, Vacancy))
  {
    PutEffect(c, Vacancy, v);
  }

  /** Distinct keys, stated on the key sequence. */
  lemma DistinctKeysByKeys(c: Composition)
    ensures DistinctKeys(c) <==> forall i, j :: 0 <= i < j < |c| ==> Keys(c)[i] != Keys(c)[j]
  {
    var ks := Keys(c);
    assert forall i :: 0 <= i < |c| ==> ks[i] == c[i].0;
  }

  /** What the caller passes as `elements`: a bare symbol or an occupancy dict. */
  datatype ElementsArg = Symbol(symbol: Element) | Table(entries: Composition)

  /**
   * `Batom.check_elements`: a bare symbol becomes fully occupied; a table
   * short of 1 by more than the tolerance gains the vacancy filler `'X'`
   * holding the missing fraction; a table above 1 by more than the tolerance
   * is rejected; any other table is returned unchanged.
   */
  function CheckElements(arg: ElementsArg): (r: Result<Composition>)
    ensures arg.Symbol? ==> r == Ok([(arg.symbol, 1.0)])
    ensures arg.Table? ==> (r.Err? <==> Total(arg.entries) > 1.0 + Tolerance)
    ensures r.Err? ==> r.error == OverOccupancy
    ensures arg.Table? && r.Ok? && Total(arg.entries) >= 1.0 - Tolerance ==> r.value == arg.entries
    ensures arg.Table? && Total(arg.entries) < 1.0 - Tolerance ==>
      && r.Ok?
      && OccupancyOf(r.value, Vacancy) == 1.0 - Total(arg.entries)
      && |r.value| >= |arg.entries|
      && (forall i :: 0 <= i < |arg.entries| && arg.entries[i].0 != Vacancy ==> r.value[i] == arg.entries[i])
    ensures arg.Table? && Total(arg.entries) < 1.0 - Tolerance && Vacancy !in Keys(arg.entries) ==>
      && r.Ok?
      && Keys(r.value) == Keys(arg.entries) + [Vacancy]
      && Total(r.value) == 1.0
    ensures arg.Table? && Total(arg.entries) < 1.0 - Tolerance && Vacancy in Keys(arg.entries) ==>
      && r.Ok?
      && Keys(r.value) == Keys(arg.entries)
      && Total(r.value) == 1.0 - OccupancyOf(arg.entries, Vacancy)
  {
    match arg
    case Symbol(s) => Ok([(s, 1.0)])
    case Table(c) =>
      var occu := Total(c);
      if occu < 1.0 - Tolerance then
        var missing := 1.0 - occu;
        FillVacancy(c, missing);
        Ok(Put(c, Vacancy, missing))
      else if occu > 1.0 + Tolerance then Err(OverOccupancy)
      else Ok(c)
  }

  /** Normalisation keeps dict keys unique. */
  lemma CheckedKeysDistinct(arg: ElementsArg)
    requires arg.Table? ==> DistinctKeys(arg.entries)
    requires CheckElements(arg).Ok?
    ensures DistinctKeys(CheckElements(arg).value)
  {
    if arg.Table? {
      var c := arg.entries;
      DistinctKeysByKeys(c);
      DistinctKeysByKeys(CheckElements(arg).value);
    }
  }

  /** A total within the tolerance of 1 is what `check_elements` leaves behind, vacancy filler included. */
  lemma {:induction false} CheckedTotalNearOne(arg: ElementsArg)
    requires arg.Table? ==> Vacancy !in Keys(arg.entries)
    requires CheckElements(arg).Ok?
    ensures 1.0 - Tolerance <= Total(CheckElements(arg).value) <= 1.0 + Tolerance
  {
    match arg
    case Symbol(s) =>
      assert Total([(s, 1.0)]) == 1.0 + Total([(s, 1.0)][1..]);
    case Table(c) =>
  }

  // ---------------------------------------------------------------------------
  // Stable descending-occupancy order: Python's `sorted(items, key=lambda x: -x[1])`.
  // ---------------------------------------------------------------------------

  predicate Descending(c: Composition) {
    forall i, j :: 0 <= i < j < |c| ==> c[i].1 >= c[j].1
  }

  /** Places e before the first entry whose occupancy is not above e's. */
  function InsertByOccupancy(e: Entry, s: Composition): (r: Composition)
    ensures |r| == |s| + 1
  {
    if |s| == 0 || s[0].1 <= e.1 then [e] + s
    else [s[0]] + InsertByOccupancy(e, s[1..])
  }

  lemma {:induction false} InsertPermutes(e: Entry, s: Composition)
    ensures multiset(InsertByOccupancy(e, s)) == multiset(s) + multiset{e}
  {
    if |s| > 0 && s[0].1 > e.1 {
      InsertPermutes(e, s[1..]);
      assert s == [s[0]] + s[1..];
    }
  }

  lemma {:induction false} InsertMembers(e: Entry, s: Composition)
    ensures forall x :: x in InsertByOccupancy(e, s) <==> x == e || x in s
  {
    if |s| > 0 && s[0].1 > e.1 {
      InsertMembers(e, s[1..]);
      assert s == [s[0]] + s[1..];
    }
  }

  lemma {:induction false} InsertKeepsDescending(e: Entry, s: Composition)
    requires Descending(s)
    ensures Descending(InsertByOccupancy(e, s))
  {
    if |s| > 0 && s[0].1 > e.1 {
      var t := InsertByOccupancy(e, s[1..]);
      InsertKeepsDescending(e, s[1..]);
      InsertMembers(e, s[1..]);
      forall k | 0 <= k < |t|
        ensures t[k].1 <= s[0].1
      {
        assert t[k] in t;
        if t[k] != e {
          var m :| 0 <= m < |s[1..]| && s[1..][m] == t[k];
          assert s[m + 1] == t[k];
        }
      }
      var r := [s[0]] + t;
      forall i, j | 0 <= i < j < |r|
        ensures r[i].1 >= r[j].1
      {
        assert r[j] == t[j - 1];
        if i > 0 {
          assert r[i] == t[i - 1];
        }
      }
    }
  }

  /** Descending by occupancy; entries of equal occupancy keep their input order. */
  function SortByOccupancy(c: Composition): (r: Composition)
    ensures |r| == |c|
    ensures Descending(r)
  {
    if |c| == 0 then []
    else
      InsertKeepsDescending(c[0], SortByOccupancy(c[1..]));
      InsertByOccupancy(c[0], SortByOccupancy(c[1..]))
  }

  /** The sorted table is a permutation of the input. */
  lemma {:induction false} SortPermutes(c: Composition)
    ensures multiset(SortByOccupancy(c)) == multiset(c)
  {
    if |c| > 0 {
      SortPermutes(c[1..]);
      InsertPermutes(c[0], SortByOccupancy(c[1..]));
      assert c == [c[0]] + c[1..];
    }
  }

  lemma KeysConcat(a: Composition, b: Composition)
    ensures Keys(a + b) == Keys(a) + Keys(b)
  {
  }

  lemma {:induction false} InsertPermutesKeys(e: Entry, s: Composition)
    ensures multiset(Keys(InsertByOccupancy(e, s))) == multiset(Keys(s)) + multiset{e.0}
  {
    if |s| == 0 || s[0].1 <= e.1 {
      KeysConcat([e], s);
    } else {
      InsertPermutesKeys(e, s[1..]);
      KeysConcat([s[0]], InsertByOccupancy(e, s[1..]));
      KeysConcat([s[0]], s[1..]);
      assert s == [s[0]] + s[1..];
    }
  }

  /** The sorted table holds the same keys as the input. */
  lemma {:induction false} SortPermutesKeys(c: Composition)
    ensures multiset(Keys(SortByOccupancy(c))) == multiset(Keys(c))
  {
    if |c| > 0 {
      var t := SortByOccupancy(c[1..]);
      SortPermutesKeys(c[1..]);
      InsertPermutesKeys(c[0], t);
      assert SortByOccupancy(c) == InsertByOccupancy(c[0], t);
      assert Keys(c) == [c[0].0] + Keys(c[1..]);
    }
  }

  /** The entries satisfying p, in order. */
  function Filter(c: Composition, p: Entry -> bool): (r: Composition)
    ensures |r| <= |c|
  {
    if |c| == 0 then []
    else (if p(c[0]) then [c[0]] else []) + Filter(c[1..], p)
  }

  lemma {:induction false} FilterMembers(c: Composition, p: Entry -> bool)
    ensures forall e :: e in Filter(c, p) ==> e in c && p(e)
    ensures forall i :: 0 <= i < |c| && p(c[i]) ==> c[i] in Filter(c, p)
  {
    if |c| > 0 {
      FilterMembers(c[1..], p);
      forall i | 0 < i < |c|
        ensures c[i] == c[1..][i - 1]
      {
      }
    }
  }

  lemma FilterCons(e: Entry, s: Composition, p: Entry -> bool)
    ensures Filter([e] + s, p) == (if p(e) then [e] else []) + Filter(s, p)
  {
    assert ([e] + s)[1..] == s;
  }

  lemma SortCons(e: Entry, s: Composition)
    ensures SortByOccupancy([e] + s) == InsertByOccupancy(e, SortByOccupancy(s))
  {
    assert ([e] + s)[1..] == s;
  }

  function OccupancyIs(v: real): Entry -> bool {
    (e: Entry) => e.1 == v
  }

  /** In a descending table every entry is at most as occupied as the head. */
  lemma HeadBounds(s: Composition, x: Entry)
    requires Descending(s) && x in s
    ensures x.1 <= s[0].1
  {
    var m :| 0 <= m < |s| && s[m] == x;
    if m > 0 {
      assert s[0].1 >= s[m].1;
    }
  }

  lemma {:induction false} FilterInsert(e: Entry, s: Composition, p: Entry -> bool)
    requires Descending(s)
    decreases |s|, 1
    ensures Filter(InsertByOccupancy(e, s), p) ==
      if p(e) then InsertByOccupancy(e, Filter(s, p)) else Filter(s, p)
  {
    var f := Filter(s, p);
    if |s| == 0 || s[0].1 <= e.1 {
      assert InsertByOccupancy(e, s) == [e] + s;
      FilterCons(e, s, p);
      if p(e) && |f| > 0 {
        FilterMembers(s, p);
        HeadBounds(s, f[0]);
        assert InsertByOccupancy(e, f) == [e] + f;
      }
    } else {
      FilterInsertBehindHead(e, s, p);
    }
  }

  lemma {:induction false} FilterInsertBehindHead(e: Entry, s: Composition, p: Entry -> bool)
    requires Descending(s) && |s| > 0 && s[0].1 > e.1
    ensures Filter(InsertByOccupancy(e, s), p) ==
      if p(e) then InsertByOccupancy(e, Filter(s, p)) else Filter(s, p)
    decreases |s|, 0
  {
    var t := InsertByOccupancy(e, s[1..]);
    var f1 := Filter(s[1..], p);
    var h: Composition := if p(s[0]) then [s[0]] else [];
    assert InsertByOccupancy(e, s) == [s[0]] + t;
    FilterCons(s[0], t, p);
    assert Filter(InsertByOccupancy(e, s), p) == h + Filter(t, p);
    FilterInsert(e, s[1..], p);
    assert Filter(s, p) == h + f1;
    if p(e) && p(s[0]) {
      assert ([s[0]] + f1)[1..] == f1;
      assert InsertByOccupancy(e, [s[0]] + f1) == [s[0]] + InsertByOccupancy(e, f1);
    } else if p(e) {
      assert h == [] && Filter(s, p) == f1;
      assert h + Filter(t, p) == InsertByOccupancy(e, f1);
    } else {
      assert h + Filter(t, p) == Filter(s, p);
    }
  }

  /** Sorting commutes with keeping only the entries that satisfy p. */
  lemma {:induction false} FilterSort(c: Composition, p: Entry -> bool)
    ensures Filter(SortByOccupancy(c), p) == SortByOccupancy(Filter(c, p))
  {
    if |c| > 0 {
      var s1 := SortByOccupancy(c[1..]);
      var f1 := Filter(c[1..], p);
      FilterSort(c[1..], p);
      FilterInsert(c[0], s1, p);
      assert SortByOccupancy(c) == InsertByOccupancy(c[0], s1);
      if p(c[0]) {
        assert Filter(c, p) == [c[0]] + f1;
        SortCons(c[0], f1);
      } else {
        assert Filter(c, p) == f1;
      }
    }
  }

  lemma {:induction false} SortOfEqualOccupancies(d: Composition, v: real)
    requires forall e :: e in d ==> e.1 == v
    ensures SortByOccupancy(d) == d
  {
    if |d| > 0 {
      var tl := d[1..];
      assert forall e :: e in tl ==> e in d;
      SortOfEqualOccupancies(tl, v);
      assert SortByOccupancy(d) == InsertByOccupancy(d[0], tl);
      if |tl| > 0 {
        assert d[0] in d && tl[0] in d;
        assert tl[0].1 <= d[0].1;
      }
      assert InsertByOccupancy(d[0], tl) == [d[0]] + tl;
      assert [d[0]] + tl == d;
    }
  }

  /** Stability: the entries of any one occupancy appear in the sorted table in their input order. */
  lemma SortIsStable(c: Composition, v: real)
    ensures Filter(SortByOccupancy(c), OccupancyIs(v)) == Filter(c, OccupancyIs(v))
  {
    FilterSort(c, OccupancyIs(v));
    FilterMembers(c, OccupancyIs(v));
    SortOfEqualOccupancies(Filter(c, OccupancyIs(v)), v);
  }

  // ---------------------------------------------------------------------------
  // Main element.
  // ---------------------------------------------------------------------------

  function IsVacancy(e: Entry): bool {
    e.0 == Vacancy
  }

  function NotVacancy(e: Entry): bool {
    e.0 != Vacancy
  }

  /**
   * Entry i is the main element of c: not the vacancy filler, at least as
   * occupied as every other real element, and strictly more occupied than
   * every real element defined before it.
   */
  ghost predicate IsMainIndex(c: Composition, i: int) {
    && 0 <= i < |c|
    && c[i].0 != Vacancy
    && forall j :: 0 <= j < |c| && c[j].0 != Vacancy ==>
         c[j].1 <= c[i].1 && (j < i ==> c[j].1 < c[i].1)
  }

  lemma {:induction false} SortedHeadIsMain(c: Composition)
    requires |Filter(c, NotVacancy)| > 0
    ensures exists i :: IsMainIndex(c, i) && SortByOccupancy(Filter(c, NotVacancy))[0] == c[i]
  {
    var f := Filter(c, NotVacancy);
    if c[0].0 == Vacancy {
      assert f == Filter(c[1..], NotVacancy);
      SortedHeadIsMain(c[1..]);
      var i' :| IsMainIndex(c[1..], i') && SortByOccupancy(f)[0] == c[1..][i'];
      assert IsMainIndex(c, i' + 1) by {
        forall j | 0 <= j < |c| && c[j].0 != Vacancy
          ensures c[j].1 <= c[i' + 1].1 && (j < i' + 1 ==> c[j].1 < c[i' + 1].1)
        {
          assert c[j] == c[1..][j - 1];
        }
      }
    } else {
      var f' := Filter(c[1..], NotVacancy);
      assert f == [c[0]] + f';
      assert ([c[0]] + f')[1..] == f';
      if |f'| == 0 {
        FilterMembers(c[1..], NotVacancy);
        forall j | 1 <= j < |c|
          ensures c[j].0 == Vacancy
        {
          assert c[j] == c[1..][j - 1];
        }
        assert IsMainIndex(c, 0);
      } else {
        SortedHeadIsMain(c[1..]);
        var i' :| IsMainIndex(c[1..], i') && SortByOccupancy(f')[0] == c[1..][i'];
        var h := SortByOccupancy(f')[0];
        if h.1 <= c[0].1 {
          assert IsMainIndex(c, 0) by {
            forall j | 0 <= j < |c| && c[j].0 != Vacancy
              ensures c[j].1 <= c[0].1
            {
              if j > 0 {
                assert c[j] == c[1..][j - 1];
              }
            }
          }
        } else {
          assert IsMainIndex(c, i' + 1) by {
            forall j | 0 <= j < |c| && c[j].0 != Vacancy
              ensures c[j].1 <= c[i' + 1].1 && (j < i' + 1 ==> c[j].1 < c[i' + 1].1)
            {
              if j > 0 {
                assert c[j] == c[1..][j - 1];
              }
            }
          }
        }
      }
    }
  }

  lemma {:induction false} FilterNone(c: Composition, p: Entry -> bool)
    requires forall i :: 0 <= i < |c| ==> !p(c[i])
    ensures Filter(c, p) == []
  {
    if |c| > 0 {
      assert forall i :: 0 <= i < |c[1..]| ==> c[1..][i] == c[i + 1];
      FilterNone(c[1..], p);
    }
  }

  lemma {:induction false} AtMostOneVacancy(c: Composition)
    requires DistinctKeys(c)
    ensures |Filter(c, IsVacancy)| <= 1
  {
    if |c| > 0 {
      if c[0].0 == Vacancy {
        assert forall i :: 0 <= i < |c[1..]| ==> c[1..][i] == c[i + 1];
        FilterNone(c[1..], IsVacancy);
      } else {
        AtMostOneVacancy(c[1..]);
      }
    }
  }

  /** The occupancy order never puts the vacancy filler in second place behind another filler. */
  lemma VacancyNotSecond(s: Composition)
    requires |s| >= 2 && IsVacancy(s[0])
    requires |Filter(s, IsVacancy)| <= 1
    ensures NotVacancy(s[1])
  {
    assert s[1..][0] == s[1];
  }

  lemma FilterHead(s: Composition, p: Entry -> bool)
    requires |s| > 0
    ensures p(s[0]) ==> |Filter(s, p)| > 0 && Filter(s, p)[0] == s[0]
    ensures |s| > 1 && !p(s[0]) && p(s[1]) ==> |Filter(s, p)| > 0 && Filter(s, p)[0] == s[1]
    ensures |s| == 1 && !p(s[0]) ==> Filter(s, p) == []
  {
    if |s| > 1 {
      assert s[1..][0] == s[1];
    }
  }

  /**
   * `Batom.main_element`: the head of the stable descending-occupancy order,
   * or the entry after it when the head is the vacancy filler. Indexing past
   * the end of the order is the `IndexError` of an empty or vacancy-only table.
   */
  function MainElement(c: Composition): (r: Result<Element>)
    ensures r.Err? ==> r.error == NoMainElement
  {
    var sorted := SortByOccupancy(c);
    if |sorted| == 0 then Err(NoMainElement)
    else if sorted[0].0 == Vacancy then
      if |sorted| < 2 then Err(NoMainElement) else Ok(sorted[1].0)
    else Ok(sorted[0].0)
  }

  /**
   * For a table with unique keys, the main element is the first-defined
   * real element of highest occupancy, and the lookup fails exactly when the
   * table holds no element besides `'X'`.
   */
  lemma MainElementIsMain(c: Composition)
    requires DistinctKeys(c)
    ensures MainElement(c).Ok? <==> exists i :: 0 <= i < |c| && c[i].0 != Vacancy
    ensures MainElement(c).Ok? ==> MainElement(c).value != Vacancy
    ensures MainElement(c).Ok? ==> exists i :: IsMainIndex(c, i) && c[i].0 == MainElement(c).value
  {
    var sorted := SortByOccupancy(c);
    var nv := Filter(c, NotVacancy);
    FilterSort(c, NotVacancy);
    FilterMembers(c, NotVacancy);
    assert forall i :: 0 <= i < |c| && c[i].0 != Vacancy ==> c[i] in nv;
    if |sorted| > 0 {
      FilterHead(sorted, NotVacancy);
      if sorted[0].0 == Vacancy && |sorted| >= 2 {
        FilterSort(c, IsVacancy);
        AtMostOneVacancy(c);
        VacancyNotSecond(sorted);
      }
      if |nv| > 0 {
        SortedHeadIsMain(c);
      }
    }
  }
}
