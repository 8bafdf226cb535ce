/**
 * The stored lecture timetable: weeks hold days, days hold lectures.
 * Also the reference definition of the pending-lecture query, the
 * week -> day -> lecture flattening filtered on `completed == false`,
 * and what is proved about it.
 */
module Timetable {

  datatype Lecture = Lecture(time: string, subject: string, topic: string, completed: bool)

  datatype Day = Day(day: string, schedule: seq<Lecture>)

  datatype Week = Week(weekNumber: int, days: seq<Day>)

  /** One stored document of the timetable collection. */
  datatype TimetableDoc = TimetableDoc(teacherId: string, weeks: seq<Week>)

  /** A lecture built without a `completed` value: the schema defaults it to false. */
  function NewLecture(time: string, subject: string, topic: string): (l: Lecture)
    ensures !l.completed
    ensures l.time == time && l.subject == subject && l.topic == topic
  {
    Lecture(time, subject, topic, false)
  }

  // ---------------------------------------------------------------------
  // Flattening in stored order

  /** The lectures of a sequence of days, day by day, each in schedule order. */
  function DayLectures(days: seq<Day>): seq<Lecture>
  {
    if days == [] then [] else days[0].schedule + DayLectures(days[1..])
  }

  /** The lectures of a sequence of weeks, week by week, then day by day. */
  function WeekLectures(weeks: seq<Week>): seq<Lecture>
  {
    if weeks == [] then [] else DayLectures(weeks[0].days) + WeekLectures(weeks[1..])
  }

  // ---------------------------------------------------------------------
  // Filtering on the completed flag

  /** The lectures of `ls` not yet completed, in their order in `ls`. */
  function Incomplete(ls: seq<Lecture>): (r: seq<Lecture>)
    ensures |r| <= |ls|
    ensures forall l :: l in r <==> l in ls && !l.completed
  {
    if ls == [] then []
    else (if ls[0].completed then [] else [ls[0]]) + Incomplete(ls[1..])
  }

  /** The lectures of `ls` already completed, in their order in `ls`. */
  function Done(ls: seq<Lecture>): (r: seq<Lecture>)
    ensures |r| <= |ls|
    ensures forall l :: l in r <==> l in ls && l.completed
  {
    if ls == [] then []
    else (if ls[0].completed then [ls[0]] else []) + Done(ls[1..])
  }

  /** What the pending-lecture query returns for a stored timetable. */
  function PendingLectures(weeks: seq<Week>): seq<Lecture>
  {
    Incomplete(WeekLectures(weeks))
  }

  // ---------------------------------------------------------------------
  // Subsequences

  /** `a` can be obtained from `b` by deleting elements, keeping the order of the rest. */
  predicate IsSubsequence<T(==)>(a: seq<T>, b: seq<T>)
    decreases |b|
  {
    if a == [] then true
    else if b == [] then false
    else if a[0] == b[0] then IsSubsequence(a[1..], b[1..])
    else IsSubsequence(a, b[1..])
  }

  // ---------------------------------------------------------------------
  // Lemmas

  lemma {:induction false} DayLecturesAppend(a: seq<Day>, b: seq<Day>)
    ensures DayLectures(a + b) == DayLectures(a) + DayLectures(b)
  {
    if a == [] {
      assert a + b == b;
    } else {
      assert (a + b)[1..] == a[1..] + b;
      DayLecturesAppend(a[1..], b);
    }
  }

  lemma {:induction false} WeekLecturesAppend(a: seq<Week>, b: seq<Week>)
    ensures WeekLectures(a + b) == WeekLectures(a) + WeekLectures(b)
  {
    if a == [] {
      assert a + b == b;
    } else {
      assert (a + b)[1..] == a[1..] + b;
      WeekLecturesAppend(a[1..], b);
    }
  }

  lemma DayLecturesSnoc(days: seq<Day>, j: nat)
    requires j < |days|
    ensures DayLectures(days[..j + 1]) == DayLectures(days[..j]) + days[j].schedule
  {
    assert days[..j + 1] == days[..j] + [days[j]];
    DayLecturesAppend(days[..j], [days[j]]);
    assert DayLectures([days[j]]) == days[j].schedule + DayLectures([]);
  }

  lemma WeekLecturesSnoc(weeks: seq<Week>, i: nat)
    requires i < |weeks|
    ensures WeekLectures(weeks[..i + 1]) == WeekLectures(weeks[..i]) + DayLectures(weeks[i].days)
  {
    assert weeks[..i + 1] == weeks[..i] + [weeks[i]];
    WeekLecturesAppend(weeks[..i], [weeks[i]]);
    assert WeekLectures([weeks[i]]) == DayLectures(weeks[i].days) + WeekLectures([]);
  }

  /** Filtering distributes over concatenation. */
  lemma {:induction false} IncompleteAppend(a: seq<Lecture>, b: seq<Lecture>)
    ensures Incomplete(a + b) == Incomplete(a) + Incomplete(b)
  {
    if a == [] {
      assert a + b == b;
    } else {
      assert (a + b)[1..] == a[1..] + b;
      IncompleteAppend(a[1..], b);
    }
  }

  /** Pending lectures of two timetables laid end to end are the two pending lists laid end to end. */
  lemma PendingAppend(w1: seq<Week>, w2: seq<Week>)
    ensures PendingLectures(w1 + w2) == PendingLectures(w1) + PendingLectures(w2)
  {
    WeekLecturesAppend(w1, w2);
    IncompleteAppend(WeekLectures(w1), WeekLectures(w2));
  }

  /** The pending lectures keep their stored relative order: they are a subsequence of all lectures. */
  lemma {:induction false} IncompleteIsSubsequence(ls: seq<Lecture>)
    ensures IsSubsequence(Incomplete(ls), ls)
  {
    if ls != [] {
      IncompleteIsSubsequence(ls[1..]);
      var rest := Incomplete(ls[1..]);
      if ls[0].completed {
        assert Incomplete(ls) == rest;
        SubsequenceDropHead(rest, ls);
      } else {
        assert Incomplete(ls) == [ls[0]] + rest;
        assert ([ls[0]] + rest)[1..] == rest;
      }
    }
  }

  lemma {:induction false} SubsequenceDropHead<T>(a: seq<T>, b: seq<T>)
    requires b != [] && IsSubsequence(a, b[1..])
    ensures IsSubsequence(a, b)
    decreases |b|, |a|
  {
    if a != [] && a[0] == b[0] {
      // a[1..] is a subsequence of a, hence of b[1..]
      SubsequenceTail(a, b[1..]);
    }
  }

  lemma {:induction false} SubsequenceTail<T>(a: seq<T>, b: seq<T>)
    requires a != [] && IsSubsequence(a, b)
    ensures IsSubsequence(a[1..], b)
    decreases |b|, |a|
  {
    assert b != [];
    if a[0] == b[0] {
      if a[1..] != [] {
        SubsequenceDropHead(a[1..], b);
      }
    } else {
      SubsequenceTail(a, b[1..]);
      if a[1..] != [] {
        SubsequenceDropHead(a[1..], b);
      }
    }
  }

  lemma PendingIsSubsequence(weeks: seq<Week>)
    ensures IsSubsequence(PendingLectures(weeks), WeekLectures(weeks))
  {
    IncompleteIsSubsequence(WeekLectures(weeks));
  }

  /** Every incomplete lecture is kept as often as it occurs, every completed one is dropped. */
  lemma {:induction false} IncompleteMultiplicity(ls: seq<Lecture>, x: Lecture)
    ensures multiset(Incomplete(ls))[x] == if x.completed then 0 else multiset(ls)[x]
  {
    if ls != [] {
      IncompleteMultiplicity(ls[1..], x);
      assert ls == [ls[0]] + ls[1..];
      assert multiset(ls) == multiset([ls[0]]) + multiset(ls[1..]);
      var head := if ls[0].completed then [] else [ls[0]];
      assert multiset(Incomplete(ls)) == multiset(head) + multiset(Incomplete(ls[1..]));
    }
  }

  /** Pending plus completed lectures account for every lecture exactly once. */
  lemma {:induction false} IncompleteDoneCount(ls: seq<Lecture>)
    ensures |Incomplete(ls)| + |Done(ls)| == |ls|
  {
    if ls != [] {
      IncompleteDoneCount(ls[1..]);
    }
  }

  lemma PendingCount(weeks: seq<Week>)
    ensures |PendingLectures(weeks)| + |Done(WeekLectures(weeks))| == |WeekLectures(weeks)|
  {
    IncompleteDoneCount(WeekLectures(weeks));
  }

  /** A timetable whose lectures are all completed has an empty pending list (not an error). */
  lemma AllCompletedNoPending(weeks: seq<Week>)
    requires forall l :: l in WeekLectures(weeks) ==> l.completed
    ensures PendingLectures(weeks) == []
  {
    IncompleteAllDone(WeekLectures(weeks));
  }

  lemma {:induction false} IncompleteAllDone(ls: seq<Lecture>)
    requires forall l :: l in ls ==> l.completed
    ensures Incomplete(ls) == []
  {
    if ls != [] {
      assert ls[0] in ls;
      assert forall l :: l in ls[1..] ==> l in ls;
      IncompleteAllDone(ls[1..]);
    }
  }

  /** One week: a pending Monday lecture and a completed Tuesday one; only the first is pending. */
  lemma PendingExample()
    ensures var math := Lecture("09:00", "Math", "Algebra", false);
            var science := Lecture("10:00", "Science", "Physics", true);
            PendingLectures([Week(1, [Day("Monday", [math]), Day("Tuesday", [science])])]) == [math]
  {
  }
}
