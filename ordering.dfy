/**
 * The three comparators `sort` chooses from, and a sort that yields a sorted
 * permutation under any of them.
 */
module Ordering {
  import opened Records

  /**
   * `a.compareTo(b) <= 0` for strings: character by character, and a proper
   * prefix comes first.
   */
  function StrLe(a: string, b: string): (r: bool)
    ensures a <= b ==> r
    ensures |b| < |a| && b == a[..|b|] ==> !r
    ensures forall k {:trigger a[k], b[k]} :: 0 <= k < |a| && k < |b| && a[..k] == b[..k] && a[k] != b[k] ==> (r <==> a[k] < b[k])
    decreases |a|
  {
    if a == [] then true
    else if b == [] then false
    else if a[0] != b[0] then a[0] < b[0]
    else
      var r := StrLe(a[1..], b[1..]);
      assert forall k {:trigger a[k], b[k]} :: 0 < k < |a| && k < |b| && a[..k] == b[..k] ==>
        a[1..][..k - 1] == b[1..][..k - 1] && a[1..][k - 1] == a[k] && b[1..][k - 1] == b[k] by {
        forall k | 0 < k < |a| && k < |b| && a[..k] == b[..k]
          ensures a[1..][..k - 1] == b[1..][..k - 1]
        {
          assert a[1..][..k - 1] == a[..k][1..] && b[1..][..k - 1] == b[..k][1..];
        }
      }
      r
  }

  lemma {:induction false} StrLeTotal(a: string, b: string)
    ensures StrLe(a, b) || StrLe(b, a)
    decreases |a|
  {
    if a != [] && b != [] && a[0] == b[0] {
      StrLeTotal(a[1..], b[1..]);
    }
  }

  lemma {:induction false} StrLeTransitive(a: string, b: string, c: string)
    requires StrLe(a, b) && StrLe(b, c)
    ensures StrLe(a, c)
    decreases |a|
  {
    if a != [] && a[0] == b[0] && b[0] == c[0] {
      StrLeTransitive(a[1..], b[1..], c[1..]);
    }
  }

  lemma {:induction false} StrLeAntisymmetric(a: string, b: string)
    requires StrLe(a, b) && StrLe(b, a)
    ensures a == b
    decreases |a|
  {
    if a != [] {
      StrLeAntisymmetric(a[1..], b[1..]);
      assert a == [a[0]] + a[1..] && b == [b[0]] + b[1..];
    }
  }

  /** The comparator list, in its order: by name, by sno, by total then average, reversed. */
  datatype Criterion = ByName | BySno | ByScore

  /** The 1-based choice `get(sortNum - 1)`; anything outside 1..3 has no comparator. */
  function CriterionAt(k: int): (c: Option<Criterion>)
    ensures c.Some? <==> 1 <= k <= 3
    ensures c == Some(ByName) <==> k == 1
    ensures c == Some(BySno) <==> k == 2
    ensures c == Some(ByScore) <==> k == 3
  {
    if k == 1 then Some(ByName)
    else if k == 2 then Some(BySno)
    else if k == 3 then Some(ByScore)
    else None
  }

  /**
   * `a` may stand before `b` (the comparator says a <= b). For ByScore the
   * comparator compares total, then average, and is reversed, so a higher total
   * comes first and equal totals put the higher average first.
   */
  function Precedes(a: Student, b: Student, c: Criterion): (r: bool)
    ensures c == ByName ==> (r <==> StrLe(a.name, b.name))
    ensures c == BySno ==> (r <==> StrLe(a.sno, b.sno))
    ensures c == ByScore && a.total > b.total ==> r
    ensures c == ByScore && a.total < b.total ==> !r
    ensures c == ByScore && a.total == b.total ==> (r <==> a.average >= b.average)
  {
    match c
    case ByName => StrLe(a.name, b.name)
    case BySno => StrLe(a.sno, b.sno)
    case ByScore => a.total > b.total || (a.total == b.total && a.average >= b.average)
  }

  lemma PrecedesTotal(a: Student, b: Student, c: Criterion)
    ensures Precedes(a, b, c) || Precedes(b, a, c)
  {
    match c
    case ByName => StrLeTotal(a.name, b.name);
    case BySno => StrLeTotal(a.sno, b.sno);
    case ByScore =>
  }

  lemma PrecedesTransitive(a: Student, b: Student, d: Student, c: Criterion)
    requires Precedes(a, b, c) && Precedes(b, d, c)
    ensures Precedes(a, d, c)
  {
    match c
    case ByName => StrLeTransitive(a.name, b.name, d.name);
    case BySno => StrLeTransitive(a.sno, b.sno, d.sno);
    case ByScore =>
  }

  predicate Sorted(s: seq<Student>, c: Criterion) {
    forall i, j :: 0 <= i < j < |s| ==> Precedes(s[i], s[j], c)
  }

  /** A sequence stays sorted when an entry that precedes all of it is put in front. */
  lemma PrependSorted(y: Student, t: seq<Student>, c: Criterion)
    requires Sorted(t, c)
    requires forall j :: 0 <= j < |t| ==> Precedes(y, t[j], c)
    ensures Sorted([y] + t, c)
  {
  }

  /** An entry that precedes the head of a sorted sequence precedes all of it. */
  lemma PrecedesAll(x: Student, s: seq<Student>, c: Criterion)
    requires Sorted(s, c) && s != [] && Precedes(x, s[0], c)
    ensures forall j :: 0 <= j < |s| ==> Precedes(x, s[j], c)
  {
    forall j | 0 < j < |s| ensures Precedes(x, s[j], c) {
      PrecedesTransitive(x, s[0], s[j], c);
    }
  }

  /** The head of a sorted sequence precedes everything of its tail with `x` added, when `x` does not precede it. */
  lemma HeadPrecedesInserted(x: Student, s: seq<Student>, rest: seq<Student>, c: Criterion)
    requires Sorted(s, c) && s != [] && !Precedes(x, s[0], c)
    requires multiset(rest) == multiset(s[1..]) + multiset{x}
    ensures forall j :: 0 <= j < |rest| ==> Precedes(s[0], rest[j], c)
  {
    forall j | 0 <= j < |rest| ensures Precedes(s[0], rest[j], c) {
      assert rest[j] in multiset(rest);
      if rest[j] == x {
        PrecedesTotal(x, s[0], c);
      } else {
        assert rest[j] in multiset(s[1..]);
        var k :| 0 <= k < |s[1..]| && s[1..][k] == rest[j];
        assert s[k + 1] == rest[j];
      }
    }
  }

  /** Puts `x` into a sorted sequence, before the first entry it may precede. */
  function InsertSorted(x: Student, s: seq<Student>, c: Criterion): (r: seq<Student>)
    requires Sorted(s, c)
    ensures Sorted(r, c)
    ensures multiset(r) == multiset(s) + multiset{x}
  {
    if s == [] then [x]
    else if Precedes(x, s[0], c) then
      PrecedesAll(x, s, c);
      PrependSorted(x, s, c);
      [x] + s
    else
      var rest := InsertSorted(x, s[1..], c);
      HeadPrecedesInserted(x, s, rest, c);
      PrependSorted(s[0], rest, c);
      assert s == [s[0]] + s[1..];
      [s[0]] + rest
  }

  /** An insertion sort: the result is sorted under `c` and a permutation of `s`. */
  function SortBy(s: seq<Student>, c: Criterion): (r: seq<Student>)
    ensures Sorted(r, c)
    ensures multiset(r) == multiset(s)
  {
    if s == [] then []
    else
      assert s == [s[0]] + s[1..];
      InsertSorted(s[0], SortBy(s[1..], c), c)
  }

  /** What criterion 3 promises: non-increasing total, and on equal totals non-increasing average. */
  lemma ScoreOrder(s: seq<Student>)
    requires Sorted(s, ByScore)
    ensures forall i, j :: 0 <= i < j < |s| ==> s[i].total >= s[j].total
    ensures forall i, j :: 0 <= i < j < |s| && s[i].total == s[j].total ==> s[i].average >= s[j].average
  {
  }

  /**
   * On well-formed records the average is fixed by the total, so the tie-break
   * on average never decides: criterion 3 orders by total alone.
   */
  lemma ScoreOrderOnWellFormed(a: Student, b: Student)
    requires WellFormed(a) && WellFormed(b)
    ensures a.total == b.total ==> a.average == b.average
    ensures Precedes(a, b, ByScore) <==> a.total >= b.total
  {
  }

  /** Totals 360, 360, 340 with averages 90, 91, 85 come out as the 91, the 90, then the 85 record. */
  lemma ScoreExample()
    ensures
      var r90 := Student("S1", "Kim", 90, 90, 90, 90, 360, 90.0, "A");
      var r91 := Student("S2", "Lee", 90, 90, 90, 90, 360, 91.0, "A");
      var r85 := Student("S3", "Park", 85, 85, 85, 85, 340, 85.0, "B");
      SortBy([r90, r91, r85], ByScore) == [r91, r90, r85]
  {
  }

  /** The 91 record of that example has an average its total disagrees with, so no roster can hold it. */
  lemma ScoreExampleRecordNotWellFormed()
    ensures !WellFormed(Student("S2", "Lee", 90, 90, 90, 90, 360, 91.0, "A"))
  {
  }
}
