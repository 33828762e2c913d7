/** The date step of the trend chart: every record gets a month-resolution date built
    from Year and Month, and the shared array is sorted ascending by it, in place. */
module DateOrder {
  import opened Records

  /** `d3.timeParse("%Y-%m")(d.Year + "-" + d.Month)`, counted in months. The parsed
      month goes through JavaScript's `Date`, which carries a month past December into the
      next year, so the count is `Year * 12 + (Month - 1)` for 100 <= Year <= 9999 and any
      month `%m` reads, and for smaller years when the month is 1 to 12. */
  function DateKey(r: TrafficRecord): int {
    r.year * 12 + r.month - 1
  }

  /** Dates never decrease from left to right. */
  predicate SortedByDate(s: seq<TrafficRecord>) {
    forall i, j :: 0 <= i < j < |s| ==> DateKey(s[i]) <= DateKey(s[j])
  }

  /** Place `x` after the last element whose date is not later than its own. */
  function Insert(x: TrafficRecord, s: seq<TrafficRecord>): seq<TrafficRecord> {
    if s == [] then [x]
    else if DateKey(s[|s| - 1]) <= DateKey(x) then s + [x]
    else Insert(x, s[..|s| - 1]) + [s[|s| - 1]]
  }

  /** The stable sort by date that `data.sort((a, b) => a.date - b.date)` performs
      (`Array.prototype.sort` is stable), written as an insertion sort. */
  function SortByDateSpec(s: seq<TrafficRecord>): seq<TrafficRecord> {
    if s == [] then [] else Insert(s[|s| - 1], SortByDateSpec(s[..|s| - 1]))
  }

  /** The records of `s` whose date is `k`, in their order in `s`. */
  function OnDate(s: seq<TrafficRecord>, k: int): seq<TrafficRecord> {
    if s == [] then []
    else OnDate(s[..|s| - 1], k) + (if DateKey(s[|s| - 1]) == k then [s[|s| - 1]] else [])
  }

  lemma OnDateAppend(s: seq<TrafficRecord>, x: TrafficRecord, k: int)
    ensures OnDate(s + [x], k) == OnDate(s, k) + (if DateKey(x) == k then [x] else [])
  {
    assert (s + [x])[..|s|] == s;
  }

  lemma {:induction false} InsertPermutes(x: TrafficRecord, s: seq<TrafficRecord>)
    ensures multiset(Insert(x, s)) == multiset(s) + multiset{x}
  {
    if s != [] && DateKey(s[|s| - 1]) > DateKey(x) {
      InsertPermutes(x, s[..|s| - 1]);
      assert s == s[..|s| - 1] + [s[|s| - 1]];
    }
  }

  lemma {:induction false} InsertSorted(x: TrafficRecord, s: seq<TrafficRecord>)
    requires SortedByDate(s)
    ensures SortedByDate(Insert(x, s))
  {
    if s != [] && DateKey(s[|s| - 1]) > DateKey(x) {
      var init, last := s[..|s| - 1], s[|s| - 1];
      InsertSorted(x, init);
      InsertPermutes(x, init);
      var t := Insert(x, init);
      forall i | 0 <= i < |t| ensures DateKey(t[i]) <= DateKey(last) {
        assert t[i] in multiset(t);
        if t[i] != x {
          assert t[i] in multiset(init);
        }
      }
    }
  }

  /** Inserting keeps the records of every date in their former order, with `x` last
      among its own date. */
  lemma {:induction false} InsertStable(x: TrafficRecord, s: seq<TrafficRecord>, k: int)
    ensures OnDate(Insert(x, s), k) == OnDate(s, k) + (if DateKey(x) == k then [x] else [])
  {
    if s == [] {
      OnDateAppend([], x, k);
    } else if DateKey(s[|s| - 1]) <= DateKey(x) {
      OnDateAppend(s, x, k);
    } else {
      var init, last := s[..|s| - 1], s[|s| - 1];
      InsertStable(x, init, k);
      OnDateAppend(Insert(x, init), last, k);
    }
  }

  /** The sorted sequence is a permutation of the input. */
  lemma {:induction false} SortPermutes(s: seq<TrafficRecord>)
    ensures multiset(SortByDateSpec(s)) == multiset(s)
  {
    if s != [] {
      var init, last := s[..|s| - 1], s[|s| - 1];
      SortPermutes(init);
      InsertPermutes(last, SortByDateSpec(init));
      assert s == init + [last];
    }
  }

  /** Adjacent (indeed all) records of the sorted sequence have non-decreasing dates. */
  lemma {:induction false} SortSorts(s: seq<TrafficRecord>)
    ensures SortedByDate(SortByDateSpec(s))
  {
    if s != [] {
      SortSorts(s[..|s| - 1]);
      InsertSorted(s[|s| - 1], SortByDateSpec(s[..|s| - 1]));
    }
  }

  /** The sort is stable: records of the same month keep their input order. */
  lemma {:induction false} SortStable(s: seq<TrafficRecord>, k: int)
    ensures OnDate(SortByDateSpec(s), k) == OnDate(s, k)
  {
    if s != [] {
      var init, last := s[..|s| - 1], s[|s| - 1];
      SortStable(init, k);
      InsertStable(last, SortByDateSpec(init), k);
    }
  }

  /** Sorting data that is already in date order changes nothing, so the sort is idempotent. */
  lemma {:induction false} SortOfSorted(s: seq<TrafficRecord>)
    requires SortedByDate(s)
    ensures SortByDateSpec(s) == s
  {
    if s != [] {
      var init, last := s[..|s| - 1], s[|s| - 1];
      assert SortedByDate(init);
      SortOfSorted(init);
      assert s == init + [last];
    }
  }

  lemma {:induction false} OnDateMembers(s: seq<TrafficRecord>, k: int)
    ensures forall x :: x in OnDate(s, k) <==> x in s && DateKey(x) == k
  {
    if s != [] {
      var init, last := s[..|s| - 1], s[|s| - 1];
      OnDateMembers(init, k);
      assert s == init + [last];
    }
  }

  /** The latest record of a date-sorted sequence carries its greatest date. */
  lemma LastIsLatest(t: seq<TrafficRecord>, x: TrafficRecord)
    requires SortedByDate(t) && x in t
    ensures DateKey(x) <= DateKey(t[|t| - 1])
  {
  }

  /** `OnDateMembers` for one record. */
  lemma OnDateHas(s: seq<TrafficRecord>, x: TrafficRecord, k: int)
    ensures x in OnDate(s, k) <==> x in s && DateKey(x) == k
  {
    OnDateMembers(s, k);
  }

  /** Two date-sorted sequences with the same records on every date end with the same record. */
  lemma SameLast(t: seq<TrafficRecord>, u: seq<TrafficRecord>)
    requires t != [] && u != []
    requires SortedByDate(t) && SortedByDate(u)
    requires forall k :: OnDate(t, k) == OnDate(u, k)
    ensures t[|t| - 1] == u[|u| - 1]
  {
    var tl, ul := t[|t| - 1], u[|u| - 1];
    var kt, ku := DateKey(tl), DateKey(ul);
    OnDateHas(t, tl, kt);
    OnDateHas(u, tl, kt);
    LastIsLatest(u, tl);
    OnDateHas(u, ul, ku);
    OnDateHas(t, ul, ku);
    LastIsLatest(t, ul);
    var tk, uk := OnDate(t[..|t| - 1], kt), OnDate(u[..|u| - 1], kt);
    assert OnDate(t, kt) == tk + [tl];
    assert OnDate(u, kt) == uk + [ul];
    assert (tk + [tl])[|tk|] == tl;
  }

  /** Removing a common last record keeps the records on every date equal. */
  lemma DropLast(t: seq<TrafficRecord>, u: seq<TrafficRecord>, k: int)
    requires t != [] && u != [] && t[|t| - 1] == u[|u| - 1]
    requires OnDate(t, k) == OnDate(u, k)
    ensures OnDate(t[..|t| - 1], k) == OnDate(u[..|u| - 1], k)
  {
    var ti, ui, x := t[..|t| - 1], u[..|u| - 1], t[|t| - 1];
    if DateKey(x) == k {
      assert OnDate(ti, k) + [x] == OnDate(ui, k) + [x];
      assert OnDate(ti, k) == (OnDate(ti, k) + [x])[..|OnDate(ti, k)|];
      assert OnDate(ui, k) == (OnDate(ui, k) + [x])[..|OnDate(ui, k)|];
    }
  }

  /** A non-empty sequence has records on the date of its first record. */
  lemma FirstHasDate(u: seq<TrafficRecord>)
    requires u != []
    ensures OnDate(u, DateKey(u[0])) != []
  {
    OnDateMembers(u, DateKey(u[0]));
    assert u[0] in OnDate(u, DateKey(u[0]));
  }

  /** Sorting is determined by its two promises: a date-sorted sequence that keeps the
      records of every date in their input order is the sorted sequence. Any stable sort
      with this comparator therefore yields `SortByDateSpec`. */
  lemma {:induction false} SortedStableIsUnique(t: seq<TrafficRecord>, u: seq<TrafficRecord>)
    requires SortedByDate(t) && SortedByDate(u)
    requires forall k :: OnDate(t, k) == OnDate(u, k)
    ensures t == u
    decreases |t|
  {
    if t == [] || u == [] {
      if u != [] {
        FirstHasDate(u);
      }
      if t != [] {
        FirstHasDate(t);
      }
    } else {
      var ti, ui := t[..|t| - 1], u[..|u| - 1];
      SameLast(t, u);
      forall k ensures OnDate(ti, k) == OnDate(ui, k) {
        DropLast(t, u, k);
      }
      assert SortedByDate(ti) && SortedByDate(ui);
      SortedStableIsUnique(ti, ui);
      assert t == ti + [t[|t| - 1]] && u == ui + [u[|u| - 1]];
    }
  }

  /** `x` lands after the last record not later than it: if every record from `j` on is
      later than `x` and the one before `j` (if any) is not, `x` goes in at `j`. */
  lemma {:induction false} InsertAt(x: TrafficRecord, s: seq<TrafficRecord>, j: nat)
    requires j <= |s|
    requires forall k :: j <= k < |s| ==> DateKey(s[k]) > DateKey(x)
    requires j == 0 || DateKey(s[j - 1]) <= DateKey(x)
    ensures Insert(x, s) == s[..j] + [x] + s[j..]
    decreases |s|
  {
    if j < |s| {
      var init := s[..|s| - 1];
      InsertAt(x, init, j);
      assert init[..j] == s[..j];
      assert init[j..] + [s[|s| - 1]] == s[j..];
    }
  }

  /** One pass of the in-place insertion sort: `a[i]` is moved left into the sorted prefix
      `a[..i]`, shifting the later-dated records one place right. */
  method InsertInto(a: array<TrafficRecord>, i: nat)
    requires i < a.Length
    modifies a
    ensures a[..i + 1] == Insert(old(a[i]), old(a[..i]))
    ensures a[i + 1..] == old(a[i + 1..])
  {
    var x := a[i];
    ghost var sorted := a[..i];
    var j := i;
    while j > 0 && DateKey(a[j - 1]) > DateKey(x)
      invariant 0 <= j <= i
      invariant forall k :: 0 <= k < j ==> a[k] == sorted[k]
      invariant forall k :: j < k <= i ==> a[k] == sorted[k - 1]
      invariant a[i + 1..] == old(a[i + 1..])
      invariant forall k :: j <= k < i ==> DateKey(sorted[k]) > DateKey(x)
    {
      a[j] := a[j - 1];
      j := j - 1;
    }
    a[j] := x;
    InsertAt(x, sorted, j);
    assert a[..i + 1] == sorted[..j] + [x] + sorted[j..];
  }

  /** `data.sort((a, b) => a.date - b.date)`, in place, as an insertion sort on the array. */
  method SortByDate(a: array<TrafficRecord>)
    modifies a
    ensures a[..] == SortByDateSpec(old(a[..]))
  {
    ghost var input := a[..];
    var i := 0;
    while i < a.Length
      invariant 0 <= i <= a.Length
      invariant a[..i] == SortByDateSpec(input[..i])
      invariant a[i..] == input[i..]
    {
      assert input[..i + 1][..i] == input[..i];
      assert a[i + 1..] == input[i + 1..];
      InsertInto(a, i);
      i := i + 1;
    }
    assert a[..] == a[..a.Length] && input == input[..a.Length];
  }
}
