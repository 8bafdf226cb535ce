/**
 * The timetable collection and the handlers that act on it: store, get,
 * update, delete and the pending-lecture query.  The collection is a
 * sequence of documents in insertion order; storing never checks for an
 * existing document, so one teacher may own several, and every lookup
 * acts on the first document whose teacherId matches.
 */
module TimetableStore {
  import opened Wrappers
  import opened Timetable

  /** The one error the handlers report themselves (HTTP 404). */
  datatype StoreError = NotFound

  /** Index of the first document of `teacherId`, the one a lookup by key acts on. */
  function FindFirst(docs: seq<TimetableDoc>, teacherId: string): (r: Option<nat>)
    ensures r.None? <==> forall k :: 0 <= k < |docs| ==> docs[k].teacherId != teacherId
    ensures r.Some? ==> r.value < |docs| && docs[r.value].teacherId == teacherId
    ensures r.Some? ==> forall k :: 0 <= k < r.value ==> docs[k].teacherId != teacherId
  {
    if docs == [] then None
    else if docs[0].teacherId == teacherId then Some(0)
    else match FindFirst(docs[1..], teacherId)
      case None => None
      case Some(i) => Some(i + 1)
  }

  /** True when no document of the collection belongs to `teacherId`. */
  predicate Absent(docs: seq<TimetableDoc>, teacherId: string)
  {
    forall k :: 0 <= k < |docs| ==> docs[k].teacherId != teacherId
  }

  /** The collection with the document at `i` taken out, all others in their order. */
  function RemoveAt(docs: seq<TimetableDoc>, i: nat): seq<TimetableDoc>
    requires i < |docs|
  {
    docs[..i] + docs[i + 1..]
  }

  class TimetableCollection {
    var docs: seq<TimetableDoc>

    constructor ()
      ensures docs == []
    {
      docs := [];
    }

    /** Inserts a new document unconditionally, duplicates included. */
    method StoreTimetable(teacherId: string, weeks: seq<Week>)
      modifies this
      ensures docs == old(docs) + [TimetableDoc(teacherId, weeks)]
    {
      docs := docs + [TimetableDoc(teacherId, weeks)];
    }

    /** The first document of `teacherId`, or NotFound when there is none. */
    method GetTimetable(teacherId: string) returns (r: Result<TimetableDoc, StoreError>)
      ensures r.Err? <==> Absent(docs, teacherId)
      ensures r.Err? ==> r.error == NotFound
      ensures r.Ok? ==> r.value.teacherId == teacherId && r.value in docs
      ensures r.Ok? ==> r.value == docs[FindFirst(docs, teacherId).value]
    {
      match FindFirst(docs, teacherId)
      case None =>
        r := Err(NotFound);
      case Some(i) =>
        r := Ok(docs[i]);
    }

    /**
     * Replaces the `weeks` of the first document of `teacherId` and returns
     * the updated document; with no such document nothing is created.
     */
    method UpdateTimetable(teacherId: string, weeks: seq<Week>) returns (r: Result<TimetableDoc, StoreError>)
      modifies this
      ensures r.Err? <==> Absent(old(docs), teacherId)
      ensures r.Err? ==> r.error == NotFound && docs == old(docs)
      ensures r.Ok? ==> r == Ok(TimetableDoc(teacherId, weeks))
      ensures r.Ok? ==> docs == old(docs)[FindFirst(old(docs), teacherId).value := r.value]
    {
      match FindFirst(docs, teacherId)
      case None =>
        r := Err(NotFound);
      case Some(i) =>
        var updated := docs[i].(weeks := weeks);
        docs := docs[i := updated];
        r := Ok(updated);
    }

    /** Removes the first document of `teacherId` and returns it; NotFound leaves the collection alone. */
    method DeleteTimetable(teacherId: string) returns (r: Result<TimetableDoc, StoreError>)
      modifies this
      ensures r.Err? <==> Absent(old(docs), teacherId)
      ensures r.Err? ==> r.error == NotFound && docs == old(docs)
      ensures r.Ok? ==> r.value.teacherId == teacherId
      ensures r.Ok? ==> var i := FindFirst(old(docs), teacherId).value;
                        r.value == old(docs)[i] && docs == RemoveAt(old(docs), i)
    {
      match FindFirst(docs, teacherId)
      case None =>
        r := Err(NotFound);
      case Some(i) =>
        r := Ok(docs[i]);
        docs := RemoveAt(docs, i);
    }

    /**
     * The lectures of the first document of `teacherId` that are not
     * completed, walked week by week, day by day, lecture by lecture.
     */
    method GetPendingLectures(teacherId: string) returns (r: Result<seq<Lecture>, StoreError>)
      ensures r.Err? <==> Absent(docs, teacherId)
      ensures r.Err? ==> r.error == NotFound
      ensures r.Ok? ==> r.value == PendingLectures(docs[FindFirst(docs, teacherId).value].weeks)
    {
      var found := FindFirst(docs, teacherId);
      if found.None? {
        return Err(NotFound);
      }
      var weeks := docs[found.value].weeks;
      var pending: seq<Lecture> := [];
      PendingPrefixEmpty(weeks);
      for i := 0 to |weeks|
        invariant pending == Incomplete(WeekLectures(weeks[..i]))
      {
        var days := weeks[i].days;
        DayPrefixEmpty(WeekLectures(weeks[..i]), days);
        for j := 0 to |days|
          invariant pending == Incomplete(WeekLectures(weeks[..i]) + DayLectures(days[..j]))
        {
          var schedule := days[j].schedule;
          ghost var before := WeekLectures(weeks[..i]) + DayLectures(days[..j]);
          LecturePrefixEmpty(before, schedule);
          for k := 0 to |schedule|
            invariant pending == Incomplete(before + schedule[..k])
          {
            var lecture := schedule[k];
            LectureStep(before, schedule, k);
            if !lecture.completed {
              pending := pending + [lecture];
            }
          }
          DayStep(WeekLectures(weeks[..i]), days, j);
        }
        WeekStep(weeks, i);
      }
      assert weeks[..|weeks|] == weeks;
      return Ok(pending);
    }
  }

  // Steps of the walk in GetPendingLectures: what has been collected so
  // far is always the incomplete part of the lectures visited so far.

  lemma PendingPrefixEmpty(weeks: seq<Week>)
    ensures Incomplete(WeekLectures(weeks[..0])) == []
  {
  }

  lemma DayPrefixEmpty(visited: seq<Lecture>, days: seq<Day>)
    ensures visited + DayLectures(days[..0]) == visited
  {
  }

  lemma LecturePrefixEmpty(visited: seq<Lecture>, schedule: seq<Lecture>)
    ensures visited + schedule[..0] == visited
  {
  }

  lemma LectureStep(visited: seq<Lecture>, schedule: seq<Lecture>, k: nat)
    requires k < |schedule|
    ensures Incomplete(visited + schedule[..k + 1]) ==
      Incomplete(visited + schedule[..k]) + (if schedule[k].completed then [] else [schedule[k]])
  {
    assert visited + schedule[..k + 1] == (visited + schedule[..k]) + [schedule[k]];
    IncompleteAppend(visited + schedule[..k], [schedule[k]]);
  }

  lemma DayStep(visited: seq<Lecture>, days: seq<Day>, j: nat)
    requires j < |days|
    ensures visited + DayLectures(days[..j]) + days[j].schedule[..|days[j].schedule|]
         == visited + DayLectures(days[..j + 1])
  {
    assert days[j].schedule[..|days[j].schedule|] == days[j].schedule;
    DayLecturesSnoc(days, j);
  }

  lemma WeekStep(weeks: seq<Week>, i: nat)
    requires i < |weeks|
    ensures WeekLectures(weeks[..i]) + DayLectures(weeks[i].days[..|weeks[i].days|])
         == WeekLectures(weeks[..i + 1])
  {
    assert weeks[i].days[..|weeks[i].days|] == weeks[i].days;
    WeekLecturesSnoc(weeks, i);
  }

  /** Storing a timetable for a teacher who had none, then reading it back, gives the stored weeks. */
  method StoreThenGet(c: TimetableCollection, teacherId: string, weeks: seq<Week>)
    returns (r: Result<TimetableDoc, StoreError>)
    requires Absent(c.docs, teacherId)
    modifies c
    ensures r == Ok(TimetableDoc(teacherId, weeks))
  {
    c.StoreTimetable(teacherId, weeks);
    FindAfterStore(old(c.docs), TimetableDoc(teacherId, weeks), teacherId);
    r := c.GetTimetable(teacherId);
  }

  // ---------------------------------------------------------------------
  // Lemmas on the collection

  /** The first matching index is determined by being first and matching. */
  lemma FindFirstIs(docs: seq<TimetableDoc>, teacherId: string, j: nat)
    requires j < |docs| && docs[j].teacherId == teacherId
    requires forall k :: 0 <= k < j ==> docs[k].teacherId != teacherId
    ensures FindFirst(docs, teacherId) == Some(j)
  {
  }

  /**
   * After an insert, a lookup finds the earlier document if there was one
   * (a duplicate stays hidden behind it), else the new document if it
   * matches, else nothing.
   */
  lemma FindAfterStore(docs: seq<TimetableDoc>, d: TimetableDoc, teacherId: string)
    ensures FindFirst(docs + [d], teacherId) ==
      if FindFirst(docs, teacherId).Some? then FindFirst(docs, teacherId)
      else if d.teacherId == teacherId then Some(|docs|)
      else None
  {
    var after := docs + [d];
    assert forall k :: 0 <= k < |docs| ==> after[k] == docs[k];
    match FindFirst(docs, teacherId)
    case Some(i) =>
      FindFirstIs(after, teacherId, i);
    case None =>
      if d.teacherId == teacherId {
        FindFirstIs(after, teacherId, |docs|);
      } else {
        assert after[|docs|] == d;
      }
  }

  /** After an update the same lookup still finds the updated document, now holding the new weeks. */
  lemma FindAfterUpdate(docs: seq<TimetableDoc>, teacherId: string, weeks: seq<Week>)
    requires FindFirst(docs, teacherId).Some?
    ensures var i := FindFirst(docs, teacherId).value;
            FindFirst(docs[i := TimetableDoc(teacherId, weeks)], teacherId) == Some(i)
  {
    var i := FindFirst(docs, teacherId).value;
    FindFirstIs(docs[i := TimetableDoc(teacherId, weeks)], teacherId, i);
  }

  /** Deleting one teacher's document leaves every other teacher's lookup result unchanged. */
  lemma LookupAfterDelete(docs: seq<TimetableDoc>, teacherId: string, other: string)
    requires FindFirst(docs, teacherId).Some?
    requires other != teacherId
    ensures var after := RemoveAt(docs, FindFirst(docs, teacherId).value);
            match FindFirst(docs, other)
            case None => FindFirst(after, other).None?
            case Some(j) => FindFirst(after, other).Some? &&
                            after[FindFirst(after, other).value] == docs[j]
  {
    var i := FindFirst(docs, teacherId).value;
    var after := RemoveAt(docs, i);
    assert forall k :: 0 <= k < |after| ==> after[k] == if k < i then docs[k] else docs[k + 1];
    match FindFirst(docs, other)
    case None =>
    case Some(j) =>
      assert j != i;
      var jj := if j < i then j else j - 1;
      assert after[jj] == docs[j];
      forall k | 0 <= k < jj ensures after[k].teacherId != other {
        if k < i {
          assert after[k] == docs[k];
        } else {
          assert after[k] == docs[k + 1] && k + 1 < j;
        }
      }
      FindFirstIs(after, other, jj);
  }
}
