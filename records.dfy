/**
 * Student records: the raw columns of the `student` table, the four-score
 * clamping rule, and the derived fields `total`, `average` and `grade` that the
 * roster manager recomputes on every write.
 */
module Records {

  datatype Option<T> = None | Some(value: T)

  /** One row of the `student` table: the key, the name and the four raw scores. */
  datatype Row = Row(sno: string, name: string, korean: int, english: int, math: int, science: int)

  /** A record as the roster holds it: the table columns plus the three derived fields. */
  datatype Student = Student(
    sno: string, name: string,
    korean: int, english: int, math: int, science: int,
    total: int, average: real, grade: string)

  const MIN_SCORE := 0
  const MAX_SCORE := 100
  /** `average` divides by this fixed subject count, not by a count of valid scores. */
  const SUBJECTS := 4

  predicate InRange(x: int) {
    MIN_SCORE <= x <= MAX_SCORE
  }

  /** Forces one subject score into [0, 100]: below 0 becomes 0, above 100 becomes 100. */
  function Clamp(x: int): (r: int)
    ensures InRange(r)
    ensures InRange(x) ==> r == x
    ensures x < MIN_SCORE ==> r == MIN_SCORE
    ensures x > MAX_SCORE ==> r == MAX_SCORE
  {
    if x < MIN_SCORE then MIN_SCORE else if x > MAX_SCORE then MAX_SCORE else x
  }

  lemma ClampIdempotent(x: int)
    ensures Clamp(Clamp(x)) == Clamp(x)
  {
  }

  predicate ScoresInRange(r: Row) {
    InRange(r.korean) && InRange(r.english) && InRange(r.math) && InRange(r.science)
  }

  /** The four clamping blocks applied to a row; key and name are untouched. */
  function ClampRow(r: Row): (c: Row)
    ensures ScoresInRange(c)
    ensures c.sno == r.sno && c.name == r.name
    ensures c.korean == Clamp(r.korean) && c.english == Clamp(r.english)
    ensures c.math == Clamp(r.math) && c.science == Clamp(r.science)
    ensures ScoresInRange(r) ==> c == r
  {
    r.(korean := Clamp(r.korean), english := Clamp(r.english),
       math := Clamp(r.math), science := Clamp(r.science))
  }

  /** The sum of the four scores. */
  function Total(r: Row): (t: int)
    ensures ScoresInRange(r) ==> 0 <= t <= SUBJECTS * MAX_SCORE
  {
    r.korean + r.english + r.math + r.science
  }

  /** `total / 4.0`, exact on `real`. */
  function Average(total: int): (a: real)
    ensures a * (SUBJECTS as real) == total as real
    ensures 0 <= total <= SUBJECTS * MAX_SCORE ==> 0.0 <= a <= MAX_SCORE as real
  {
    total as real / SUBJECTS as real
  }

  /** Five bands, highest first, each with an inclusive lower bound. */
  function Grade(average: real): (g: string)
    ensures g in ["A", "B", "C", "D", "F"]
    ensures g == "A" <==> average >= 90.0
    ensures g == "B" <==> 80.0 <= average < 90.0
    ensures g == "C" <==> 70.0 <= average < 80.0
    ensures g == "D" <==> 60.0 <= average < 70.0
    ensures g == "F" <==> average < 60.0
  {
    if average >= 90.0 then "A"
    else if average >= 80.0 then "B"
    else if average >= 70.0 then "C"
    else if average >= 60.0 then "D"
    else "F"
  }

  /** The table columns of a record, without its derived fields. */
  function Raw(s: Student): Row {
    Row(s.sno, s.name, s.korean, s.english, s.math, s.science)
  }

  /** total, average and grade agree with the record's scores. */
  predicate Consistent(s: Student) {
    s.total == Total(Raw(s)) && s.average == Average(s.total) && s.grade == Grade(s.average)
  }

  /** Scores clamped and derived fields consistent: the roster's per-record invariant. */
  predicate WellFormed(s: Student) {
    ScoresInRange(Raw(s)) && Consistent(s)
  }

  /** `total`, then `average`, then `grade`, each computed from what the previous one set. */
  function Derive(r: Row): (s: Student)
    ensures Raw(s) == r
    ensures Consistent(s)
  {
    var t := Total(r);
    var a := Average(t);
    Student(r.sno, r.name, r.korean, r.english, r.math, r.science, t, a, Grade(a))
  }

  /** A fetched row as it enters the roster: clamped, then derived. */
  function Record(r: Row): (s: Student)
    ensures WellFormed(s)
    ensures s.sno == r.sno && s.name == r.name
    ensures Raw(s) == ClampRow(r)
    ensures ScoresInRange(r) ==> Raw(s) == r
  {
    Derive(ClampRow(r))
  }

  /**
   * A caller's record after the clamping blocks and the three derived-field
   * setters: whatever total, average and grade it carried are overwritten.
   */
  function Normalize(v: Student): (s: Student)
    ensures WellFormed(s)
    ensures s.sno == v.sno && s.name == v.name
    ensures Raw(s) == ClampRow(Raw(v))
    ensures WellFormed(v) ==> s == v
  {
    Record(Raw(v))
  }

  lemma NormalizeIdempotent(v: Student)
    ensures Normalize(Normalize(v)) == Normalize(v)
  {
  }

  /** On clamped scores the total lies in [0, 400]. */
  lemma TotalOfWellFormed(s: Student)
    requires WellFormed(s)
    ensures 0 <= s.total <= SUBJECTS * MAX_SCORE
    ensures 0.0 <= s.average <= MAX_SCORE as real
  {
  }

  /** The grade bands restated on the integer total: A iff total >= 360, and so on. */
  lemma GradeOfTotal(t: int)
    ensures Grade(Average(t)) == "A" <==> t >= 360
    ensures Grade(Average(t)) == "B" <==> 320 <= t < 360
    ensures Grade(Average(t)) == "C" <==> 280 <= t < 320
    ensures Grade(Average(t)) == "D" <==> 240 <= t < 280
    ensures Grade(Average(t)) == "F" <==> t < 240
  {
  }

  /** A position of a grade letter in the band order, F lowest. */
  function Rank(g: string): int {
    if g == "A" then 4 else if g == "B" then 3 else if g == "C" then 2 else if g == "D" then 1 else 0
  }

  /** A higher average never earns a lower grade. */
  lemma GradeMonotone(a: real, b: real)
    requires a <= b
    ensures Rank(Grade(a)) <= Rank(Grade(b))
  {
  }

  /** An insert example: scores 105, -5, 70, 80 are stored as 100, 0, 70, 80 with total 250, average 62.5, grade D. */
  lemma InsertExample()
    ensures Record(Row("S1", "Kim", 105, -5, 70, 80))
         == Student("S1", "Kim", 100, 0, 70, 80, 250, 62.5, "D")
  {
  }
}
