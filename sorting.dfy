/**
  Python's `list.sort()` for the two places the pipeline sorts: an insertion
  sort parameterised by the comparison, proved to return a sorted permutation
  of its input. Elements the comparison ranks equal keep their input order
  (Python's sort is stable), which `SortByStable` states.
*/
module Sorting {

  ghost predicate Total<T(!new)>(le: (T, T) -> bool) {
    forall x, y :: le(x, y) || le(y, x)
  }

  ghost predicate Transitive<T(!new)>(le: (T, T) -> bool) {
    forall x, y, z :: le(x, y) && le(y, z) ==> le(x, z)
  }

  ghost predicate SortedBy<T>(s: seq<T>, le: (T, T) -> bool) {
    forall i, j :: 0 <= i < j < |s| ==> le(s[i], s[j])
  }

  /** Puts `x` in front of the first element it ranks at or below. */
  function Insert<T>(x: T, s: seq<T>, le: (T, T) -> bool): (r: seq<T>)
    ensures |r| == |s| + 1
    ensures multiset(r) == multiset(s) + multiset{x}
  {
    if s == [] then [x]
    else if le(x, s[0]) then [x] + s
    else
      var rest := Insert(x, s[1..], le);
      assert s == [s[0]] + s[1..];
      [s[0]] + rest
  }

  /** Insertion sort: a permutation of `s`. */
  function SortBy<T>(s: seq<T>, le: (T, T) -> bool): (r: seq<T>)
    ensures multiset(r) == multiset(s)
  {
    if s == [] then []
    else
      assert s == [s[0]] + s[1..];
      Insert(s[0], SortBy(s[1..], le), le)
  }

  lemma {:induction false} InsertSorted<T(!new)>(x: T, s: seq<T>, le: (T, T) -> bool)
    requires Total(le) && Transitive(le)
    requires SortedBy(s, le)
    ensures SortedBy(Insert(x, s, le), le)
  {
    if s != [] && !le(x, s[0]) {
      var rest := Insert(x, s[1..], le);
      InsertSorted(x, s[1..], le);
      forall j | 0 <= j < |rest| ensures le(s[0], rest[j]) {
        assert rest[j] in multiset(rest);
        if rest[j] != x {
          assert rest[j] in multiset(s[1..]);
          var k :| 0 <= k < |s[1..]| && s[1..][k] == rest[j];
          assert s[k + 1] == rest[j];
        }
      }
      var r := [s[0]] + rest;
      assert Insert(x, s, le) == r;
      forall i, j | 0 <= i < j < |r| ensures le(r[i], r[j]) {
        if i > 0 {
          assert r[i] == rest[i - 1] && r[j] == rest[j - 1];
        } else {
          assert r[j] == rest[j - 1];
        }
      }
    } else if s != [] {
      var r := [x] + s;
      forall i, j | 0 <= i < j < |r| ensures le(r[i], r[j]) {
        if i == 0 {
          assert r[j] == s[j - 1];
          if j > 1 {
            assert le(s[0], s[j - 1]);
          }
        } else {
          assert r[i] == s[i - 1] && r[j] == s[j - 1];
        }
      }
    }
  }

  /** Sorting by a total, transitive comparison yields a sorted sequence. */
  lemma {:induction false} SortBySorted<T(!new)>(s: seq<T>, le: (T, T) -> bool)
    requires Total(le) && Transitive(le)
    ensures SortedBy(SortBy(s, le), le)
  {
    if s != [] {
      SortBySorted(s[1..], le);
      InsertSorted(s[0], SortBy(s[1..], le), le);
    }
  }

  /** The elements of `s` that satisfy `p`, in order. */
  function Select<T>(s: seq<T>, p: T -> bool): (r: seq<T>)
    ensures |r| <= |s|
  {
    if s == [] then [] else (if p(s[0]) then [s[0]] else []) + Select(s[1..], p)
  }

  lemma {:induction false} SelectCons<T>(y: T, t: seq<T>, p: T -> bool)
    ensures Select([y] + t, p) == (if p(y) then [y] else []) + Select(t, p)
  {
    assert ([y] + t)[1..] == t;
  }

  lemma {:induction false} InsertSelect<T(!new)>(x: T, s: seq<T>, le: (T, T) -> bool, p: T -> bool)
    requires forall y :: p(y) && p(x) ==> le(x, y)
    ensures Select(Insert(x, s, le), p) == Select([x] + s, p)
  {
    if s == [] {
      assert [x] + s == [x];
    } else if !le(x, s[0]) {
      var y, t := s[0], s[1..];
      var rest := Insert(x, t, le);
      InsertSelect(x, t, le, p);
      assert Insert(x, s, le) == [y] + rest;
      var ey: seq<T> := if p(y) then [y] else [];
      var ex: seq<T> := if p(x) then [x] else [];
      assert !p(y) || !p(x);
      assert ey + ex == ex + ey;
      calc {
        Select([y] + rest, p);
        { SelectCons(y, rest, p); }
        ey + Select(rest, p);
        { SelectCons(x, t, p); }
        ey + (ex + Select(t, p));
        ex + (ey + Select(t, p));
        { SelectCons(y, t, p); assert [y] + t == s; }
        ex + Select(s, p);
        { SelectCons(x, s, p); }
        Select([x] + s, p);
      }
    }
  }

  /** Stability: among the elements of any class `p` whose members the
      comparison ranks equal, sorting keeps their input order. */
  lemma {:induction false} SortByStable<T(!new)>(s: seq<T>, le: (T, T) -> bool, p: T -> bool)
    requires forall x, y :: p(x) && p(y) ==> le(x, y)
    ensures Select(SortBy(s, le), p) == Select(s, p)
  {
    if s != [] {
      SortByStable(s[1..], le, p);
      InsertSelect(s[0], SortBy(s[1..], le), le, p);
      var sorted := SortBy(s[1..], le);
      assert ([s[0]] + sorted)[1..] == sorted;
    }
  }
}
