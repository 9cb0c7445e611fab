/**
 * The roster manager: an in-memory list of student records kept in step with
 * the `student` table. The table itself stays outside the model; each
 * operation receives what the store answered as a parameter.
 */
module Dao {
  import opened Records
  import opened Ordering

  /** What `executeUpdate` gave back: a count of affected rows, or an SQLException. */
  datatype Reply = Affected(count: nat) | StoreError

  /** What the keyed `select ... where sno = ?` gave back: the sno of the row found, no row, or an SQLException. */
  datatype KeyedReply = RowFound(sno: string) | NoRow | QueryError

  /** How an operation ended. */
  datatype Status =
    | Done          // the roster was changed (or, for search, the query ran)
    | NotApplied    // the store affected a number of rows the operation does not act on
    | MissingEntry  // the store reported success but the roster holds no entry with that sno
    | StoreFailure  // the statement raised an SQLException

  /** The records the whole-table select yields, one per fetched row and in row order. */
  function LoadRows(rows: seq<Row>): (r: seq<Student>)
    ensures |r| == |rows|
    ensures forall i :: 0 <= i < |rows| ==> r[i] == Record(rows[i])
  {
    if rows == [] then []
    else LoadRows(rows[..|rows| - 1]) + [Record(rows[|rows| - 1])]
  }

  /** The roster after the lazy load: reloaded from the table only when it is empty. */
  function AfterLoad(s: seq<Student>, rows: seq<Row>): (r: seq<Student>)
    ensures s != [] ==> r == s
    ensures s == [] ==> |r| == |rows| && forall i :: 0 <= i < |rows| ==> r[i] == Record(rows[i])
  {
    if s == [] then LoadRows(rows) else s
  }

  /** `indexOf` keyed on sno: the position of the first entry with that sno, or -1. */
  function IndexOf(s: seq<Student>, sno: string): (i: int)
    ensures -1 <= i < |s|
    ensures 0 <= i ==> s[i].sno == sno && forall k :: 0 <= k < i ==> s[k].sno != sno
    ensures i == -1 <==> forall k :: 0 <= k < |s| ==> s[k].sno != sno
  {
    if s == [] then -1
    else if s[0].sno == sno then 0
    else
      var j := IndexOf(s[1..], sno);
      if j < 0 then -1 else j + 1
  }

  /** The entry with that sno, if the roster holds one. */
  function Lookup(s: seq<Student>, sno: string): (r: Option<Student>)
    ensures r.Some? <==> exists k :: 0 <= k < |s| && s[k].sno == sno
    ensures r.Some? ==> r.value.sno == sno && r.value in s
  {
    var i := IndexOf(s, sno);
    if i < 0 then None else Some(s[i])
  }

  /** `s` with the entry at `i` taken out; the others keep their relative order. */
  function RemoveAt(s: seq<Student>, i: int): (r: seq<Student>)
    requires 0 <= i < |s|
    ensures |r| == |s| - 1
    ensures forall k :: 0 <= k < i ==> r[k] == s[k]
    ensures forall k :: i <= k < |r| ==> r[k] == s[k + 1]
    ensures multiset(r) + multiset{s[i]} == multiset(s)
  {
    assert s == s[..i] + [s[i]] + s[i + 1..];
    s[..i] + s[i + 1..]
  }

  /** At most one record per sno. */
  predicate UniqueIds(s: seq<Student>) {
    forall i, j :: 0 <= i < j < |s| ==> s[i].sno != s[j].sno
  }

  /** Appending a record leaves earlier lookups alone and makes a new sno findable. */
  lemma {:induction false} LookupAppend(s: seq<Student>, x: Student, sno: string)
    ensures Lookup(s + [x], sno) ==
      if Lookup(s, sno).Some? then Lookup(s, sno)
      else if x.sno == sno then Some(x)
      else None
  {
    var i := IndexOf(s, sno);
    var j := IndexOf(s + [x], sno);
    if i >= 0 {
      assert (s + [x])[i] == s[i];
      assert forall k :: 0 <= k < i ==> (s + [x])[k] == s[k];
      assert j == i;
    } else {
      assert forall k :: 0 <= k < |s| ==> (s + [x])[k] == s[k];
      assert (s + [x])[|s|] == x;
      if x.sno == sno {
        assert j == |s|;
      } else {
        assert j == -1;
      }
    }
  }

  /** Appending a record whose sno the roster does not hold keeps snos unique. */
  lemma AppendKeepsUnique(s: seq<Student>, x: Student)
    requires UniqueIds(s) && Lookup(s, x.sno) == None
    ensures UniqueIds(s + [x])
  {
  }

  /** With unique snos, once the entry at `i` is removed its sno is no longer found. */
  lemma RemoveAtForgets(s: seq<Student>, i: int)
    requires UniqueIds(s) && 0 <= i < |s|
    ensures Lookup(RemoveAt(s, i), s[i].sno) == None
    ensures UniqueIds(RemoveAt(s, i))
  {
  }

  /** Replacing the entry found for x's sno by x makes x the one found, and keeps snos unique. */
  lemma ReplaceFound(s: seq<Student>, x: Student)
    requires 0 <= IndexOf(s, x.sno)
    ensures Lookup(s[IndexOf(s, x.sno) := x], x.sno) == Some(x)
    ensures UniqueIds(s) ==> UniqueIds(s[IndexOf(s, x.sno) := x])
  {
    var i := IndexOf(s, x.sno);
    var r := s[i := x];
    assert r[i] == x;
  }

  /** Every record in the roster is clamped and has consistent derived fields. */
  ghost predicate AllWellFormed(s: seq<Student>) {
    forall x :: x in s ==> WellFormed(x)
  }

  /** The data access object: the roster, the only state the model keeps. */
  class StudentDAO {
    /** `studentlist`. */
    var students: seq<Student>

    ghost predicate Valid()
      reads this
    {
      AllWellFormed(students)
    }

    constructor ()
      ensures Valid() && students == []
    {
      students := [];
    }

    /** `connect`: appends one clamped, derived record per fetched row, in row order. */
    method Connect(rows: seq<Row>)
      requires Valid()
      modifies this
      ensures Valid()
      ensures students == old(students) + LoadRows(rows)
    {
      var i := 0;
      while i < |rows|
        invariant 0 <= i <= |rows|
        invariant students == old(students) + LoadRows(rows[..i])
        invariant AllWellFormed(students)
      {
        students := students + [Record(rows[i])];
        assert rows[..i + 1][..i] == rows[..i];
        i := i + 1;
      }
      assert rows[..i] == rows;
    }

    /** The `if (studentlist.isEmpty()) connect()` guard every operation starts with. */
    method LoadIfEmpty(rows: seq<Row>)
      requires Valid()
      modifies this
      ensures Valid()
      ensures students == AfterLoad(old(students), rows)
    {
      if students == [] {
        Connect(rows);
      }
    }

    /**
     * `input`: the insert statement is bound with the caller's raw scores; only
     * when it affects a row is the record clamped, derived and appended.
     */
    method Input(v: Student, rows: seq<Row>, reply: Reply) returns (sent: Row, status: Status)
      requires Valid()
      modifies this
      ensures Valid()
      ensures sent == Raw(v)
      ensures status == Done <==> reply.Affected? && reply.count != 0
      ensures status == NotApplied <==> reply == Affected(0)
      ensures status == StoreFailure <==> reply == StoreError
      ensures status == Done ==> students == AfterLoad(old(students), rows) + [Normalize(v)]
      ensures status != Done ==> students == AfterLoad(old(students), rows)
    {
      LoadIfEmpty(rows);
      sent := Raw(v);
      if reply == StoreError {
        status := StoreFailure;
      } else if reply.count == 0 {
        status := NotApplied;
      } else {
        students := students + [Normalize(v)];
        status := Done;
      }
    }

    /**
     * `update`: the record is clamped and derived first, so the update statement
     * carries clamped scores; on success the entry with that sno is replaced in
     * place. An absent entry is the failure `set(-1, ...)` would raise.
     */
    method Update(v: Student, rows: seq<Row>, reply: Reply) returns (sent: Row, status: Status)
      requires Valid()
      modifies this
      ensures Valid()
      ensures sent == Raw(Normalize(v))
      ensures var before := AfterLoad(old(students), rows);
        && (status == StoreFailure <==> reply == StoreError)
        && (status == NotApplied <==> reply == Affected(0))
        && (status == MissingEntry <==> reply.Affected? && reply.count != 0 && IndexOf(before, v.sno) < 0)
        && (status == Done <==> reply.Affected? && reply.count != 0 && 0 <= IndexOf(before, v.sno))
        && (status == Done ==> students == before[IndexOf(before, v.sno) := Normalize(v)])
        && (status != Done ==> students == before)
    {
      var record := Normalize(v);
      LoadIfEmpty(rows);
      sent := Raw(record);
      if reply == StoreError {
        status := StoreFailure;
      } else if reply.count == 0 {
        status := NotApplied;
      } else {
        var index := IndexOf(students, record.sno);
        if index < 0 {
          status := MissingEntry;
        } else {
          students := students[index := record];
          status := Done;
        }
      }
    }

    /**
     * `delete`: exactly one affected row removes the first entry with that sno;
     * any other count leaves the roster alone. An absent entry is the failure
     * `findAny().get()` would raise.
     */
    method Delete(sno: string, rows: seq<Row>, reply: Reply) returns (status: Status)
      requires Valid()
      modifies this
      ensures Valid()
      ensures var before := AfterLoad(old(students), rows);
        && (status == StoreFailure <==> reply == StoreError)
        && (status == NotApplied <==> reply.Affected? && reply.count != 1)
        && (status == MissingEntry <==> reply == Affected(1) && IndexOf(before, sno) < 0)
        && (status == Done <==> reply == Affected(1) && 0 <= IndexOf(before, sno))
        && (status == Done ==> students == RemoveAt(before, IndexOf(before, sno)))
        && (status != Done ==> students == before)
    {
      LoadIfEmpty(rows);
      if reply == StoreError {
        status := StoreFailure;
      } else if reply.count != 1 {
        status := NotApplied;
      } else {
        var index := IndexOf(students, sno);
        if index < 0 {
          status := MissingEntry;
        } else {
          students := RemoveAt(students, index);
          status := Done;
        }
      }
    }

    /**
     * `search`: when the keyed select finds a row, the roster entry with the
     * found row's sno is the answer. The roster is not changed beyond the lazy load.
     * `sno` is only bound into the keyed select; the roster lookup uses the sno of
     * the row the store returned (`reply.sno`), so the argument itself decides nothing here.
     */
    method Search(sno: string, rows: seq<Row>, reply: KeyedReply) returns (status: Status, found: Option<Student>)
      requires Valid()
      modifies this
      ensures Valid()
      ensures students == AfterLoad(old(students), rows)
      ensures status == StoreFailure <==> reply == QueryError
      ensures status == Done <==> reply != QueryError
      ensures found == if reply.RowFound? then Lookup(students, reply.sno) else None
      ensures found.Some? ==> found.value in students && WellFormed(found.value)
    {
      LoadIfEmpty(rows);
      found := None;
      if reply == QueryError {
        status := StoreFailure;
      } else {
        status := Done;
        if reply.RowFound? {
          found := Lookup(students, reply.sno);
        }
      }
    }

    /**
     * `sort`: picks the comparator by 1-based index and reorders the roster in
     * place; an index outside 1..3 fails and changes nothing.
     */
    method Sort(k: int) returns (ok: bool)
      requires Valid()
      modifies this
      ensures Valid()
      ensures ok <==> 1 <= k <= 3
      ensures ok ==> multiset(students) == multiset(old(students))
      ensures ok ==> Sorted(students, CriterionAt(k).value)
      ensures !ok ==> students == old(students)
    {
      var criterion := CriterionAt(k);
      if criterion == None {
        ok := false;
      } else {
        ghost var before := students;
        students := SortBy(students, criterion.value);
        assert forall x :: x in students ==> x in multiset(before);
        ok := true;
      }
    }

    /**
     * `totalSearch`: the lazy load followed by `sort`; `shown` is the roster as
     * printed. With an index outside 1..3 `sort` throws before anything is printed.
     * `loadFailed` is the outcome of `getConnection` in the lazy load: when the
     * roster is empty and the connection fails, the operation stops before the
     * load and before `sort`, and nothing is printed.
     */
    method TotalSearch(k: int, rows: seq<Row>, loadFailed: bool) returns (ok: bool, shown: seq<Student>)
      requires Valid()
      modifies this
      ensures Valid()
      ensures ok ==> shown == students
      ensures !ok ==> shown == []
      ensures loadFailed && old(students) == [] ==> !ok && students == []
      ensures !(loadFailed && old(students) == []) ==> (ok <==> 1 <= k <= 3)
      ensures !(loadFailed && old(students) == []) ==>
        multiset(students) == multiset(AfterLoad(old(students), rows))
      ensures ok ==> Sorted(students, CriterionAt(k).value)
      ensures !ok && !(loadFailed && old(students) == []) ==> students == AfterLoad(old(students), rows)
    {
      if loadFailed && students == [] {
        ok, shown := false, [];
        return;
      }
      LoadIfEmpty(rows);
      ok := Sort(k);
      shown := if ok then students else [];
    }
  }

  /** An insert of a new sno followed by a search that finds it yields the clamped, derived record. */
  method InsertThenSearch(dao: StudentDAO, v: Student, rows: seq<Row>, n: nat)
    returns (found: Option<Student>)
    requires dao.Valid()
    requires Lookup(AfterLoad(dao.students, rows), v.sno) == None
    requires n != 0
    modifies dao
    ensures dao.Valid()
    ensures found == Some(Normalize(v))
  {
    var _, status := dao.Input(v, rows, Affected(n));
    ghost var before := AfterLoad(old(dao.students), rows);
    LookupAppend(before, Normalize(v), v.sno);
    var st;
    st, found := dao.Search(v.sno, rows, RowFound(v.sno));
  }

  /**
   * A delete that affects one row followed by a search finds nothing, when snos
   * are unique. Should the delete empty the roster, the search reloads it from
   * `later`, the table as it then is, which no longer holds the sno.
   */
  method DeleteThenSearch(dao: StudentDAO, sno: string, rows: seq<Row>, later: seq<Row>, reply: KeyedReply)
    returns (found: Option<Student>)
    requires dao.Valid()
    requires UniqueIds(AfterLoad(dao.students, rows))
    requires 0 <= IndexOf(AfterLoad(dao.students, rows), sno)
    requires forall k :: 0 <= k < |later| ==> later[k].sno != sno
    requires reply == NoRow || reply == RowFound(sno)
    modifies dao
    ensures dao.Valid()
    ensures found == None
  {
    ghost var before := AfterLoad(dao.students, rows);
    var status := dao.Delete(sno, rows, Affected(1));
    RemoveAtForgets(before, IndexOf(before, sno));
    var st;
    st, found := dao.Search(sno, later, reply);
  }
}
