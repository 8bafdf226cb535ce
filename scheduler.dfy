/**
 * The client-side timetable page: the per-lecture status update on the
 * generated timetable, the weekday checkbox toggle and the guard that
 * decides whether a generate request is sent.  All of these compute a new
 * value from the old one; the page stores it with its state setters.
 */
module Scheduler {
  import opened Wrappers
  import Timetable

  // ---------------------------------------------------------------------
  // The timetable as the page holds it

  /** A lecture on the page; `status` is absent until the teacher picks one. */
  datatype UiLecture = UiLecture(time: string, subject: string, topic: string, status: Option<string>)

  datatype UiDay = UiDay(day: string, schedule: seq<UiLecture>)

  datatype UiWeek = UiWeek(week: int, days: seq<UiDay>)

  predicate InRange(weeks: seq<UiWeek>, w: int, d: int, l: int)
  {
    0 <= w < |weeks| && 0 <= d < |weeks[w].days| && 0 <= l < |weeks[w].days[d].schedule|
  }

  /** Same number of weeks, of days in each week and of lectures in each day. */
  predicate SameShape(a: seq<UiWeek>, b: seq<UiWeek>)
  {
    && |a| == |b|
    && (forall i :: 0 <= i < |a| ==> |a[i].days| == |b[i].days|)
    && (forall i, j :: 0 <= i < |a| && 0 <= j < |a[i].days| ==>
          |a[i].days[j].schedule| == |b[i].days[j].schedule|)
  }

  /**
   * `a` and `b` have the same shape, the same week numbers and day names,
   * and the same lecture in every cell other than (w, d, l).
   */
  predicate AgreeExcept(a: seq<UiWeek>, b: seq<UiWeek>, w: int, d: int, l: int)
  {
    && SameShape(a, b)
    && (forall i :: 0 <= i < |a| ==> a[i].week == b[i].week)
    && (forall i, j :: 0 <= i < |a| && 0 <= j < |a[i].days| ==> a[i].days[j].day == b[i].days[j].day)
    && (forall i, j, k ::
          (0 <= i < |a| && 0 <= j < |a[i].days| && 0 <= k < |a[i].days[j].schedule| && (i, j, k) != (w, d, l))
          ==> a[i].days[j].schedule[k] == b[i].days[j].schedule[k])
  }

  function SetInSchedule(schedule: seq<UiLecture>, l: int, status: string): seq<UiLecture>
  {
    seq(|schedule|, k requires 0 <= k < |schedule| =>
      if k == l then schedule[k].(status := Some(status)) else schedule[k])
  }

  function SetInDays(days: seq<UiDay>, d: int, l: int, status: string): seq<UiDay>
  {
    seq(|days|, j requires 0 <= j < |days| =>
      if j == d then days[j].(schedule := SetInSchedule(days[j].schedule, l, status)) else days[j])
  }

  function SetInWeeks(weeks: seq<UiWeek>, w: int, d: int, l: int, status: string): seq<UiWeek>
  {
    seq(|weeks|, i requires 0 <= i < |weeks| =>
      if i == w then weeks[i].(days := SetInDays(weeks[i].days, d, l, status)) else weeks[i])
  }

  /**
   * The status picker of lecture (w, d, l): that lecture gets the new
   * status and keeps its time, subject and topic; nothing else changes;
   * indices outside the timetable change nothing; no timetable stays none.
   */
  function UpdateLectureStatus(timetable: Option<seq<UiWeek>>, w: int, d: int, l: int, status: string)
    : (r: Option<seq<UiWeek>>)
    ensures r.None? <==> timetable.None?
    ensures timetable.Some? ==> AgreeExcept(timetable.value, r.value, w, d, l)
    ensures timetable.Some? && InRange(timetable.value, w, d, l) ==>
      var before := timetable.value[w].days[d].schedule[l];
      var after := r.value[w].days[d].schedule[l];
      after.status == Some(status) &&
      after.time == before.time && after.subject == before.subject && after.topic == before.topic
  {
    match timetable
    case None => None
    case Some(weeks) => Some(SetInWeeks(weeks, w, d, l, status))
  }

  /** A status pick addressed outside the timetable leaves it exactly as it was. */
  lemma UpdateOutOfRangeUnchanged(timetable: Option<seq<UiWeek>>, w: int, d: int, l: int, status: string)
    requires timetable.Some? ==> !InRange(timetable.value, w, d, l)
    ensures UpdateLectureStatus(timetable, w, d, l, status) == timetable
  {
    if timetable.None? {
      return;
    }
    var weeks := timetable.value;
    var updated := SetInWeeks(weeks, w, d, l, status);
    forall i | 0 <= i < |weeks| ensures updated[i] == weeks[i] {
      if i == w {
        var days := weeks[i].days;
        var newDays := SetInDays(days, d, l, status);
        forall j | 0 <= j < |days| ensures newDays[j] == days[j] {
          if j == d {
            assert SetInSchedule(days[j].schedule, l, status) == days[j].schedule;
          }
        }
        assert newDays == days;
      }
    }
    assert updated == weeks;
  }

  /** Picking the same status for the same lecture twice is the same as picking it once. */
  lemma UpdateLectureStatusIdempotent(timetable: Option<seq<UiWeek>>, w: int, d: int, l: int, status: string)
    ensures var once := UpdateLectureStatus(timetable, w, d, l, status);
            UpdateLectureStatus(once, w, d, l, status) == once
  {
    var once := UpdateLectureStatus(timetable, w, d, l, status);
    if once.Some? {
      var a := once.value;
      var b := SetInWeeks(a, w, d, l, status);
      forall i | 0 <= i < |a| ensures b[i] == a[i] {
        if i == w {
          var days := a[i].days;
          forall j | 0 <= j < |days| ensures SetInDays(days, d, l, status)[j] == days[j] {
            if j == d {
              var s := days[j].schedule;
              assert SetInSchedule(s, l, status) == s;
            }
          }
          assert SetInDays(days, d, l, status) == days;
        }
      }
      assert b == a;
    }
  }

  // ---------------------------------------------------------------------
  // The generate form

  /** `lectureDuration` is carried along only; its numeric coercion is not modelled. */
  datatype FormData = FormData(
    numWeeks: int,
    startTime: string,
    endTime: string,
    lectureDuration: real,
    listOfDays: seq<string>)

  const InitialForm: FormData := FormData(1, "", "", 1.0, [])

  /** `days` with every occurrence of `day` filtered out. */
  function Without(days: seq<string>, day: string): (r: seq<string>)
    ensures day !in r
    ensures forall x :: x != day ==> multiset(r)[x] == multiset(days)[x]
  {
    if days == [] then []
    else
      assert days == [days[0]] + days[1..];
      if days[0] == day then Without(days[1..], day)
      else [days[0]] + Without(days[1..], day)
  }

  lemma {:induction false} WithoutIsSubsequence(days: seq<string>, day: string)
    ensures Timetable.IsSubsequence(Without(days, day), days)
  {
    if days != [] {
      WithoutIsSubsequence(days[1..], day);
      if days[0] == day {
        Timetable.SubsequenceDropHead(Without(days[1..], day), days);
      } else {
        assert ([days[0]] + Without(days[1..], day))[1..] == Without(days[1..], day);
      }
    }
  }

  lemma {:induction false} WithoutAbsent(days: seq<string>, day: string)
    requires day !in days
    ensures Without(days, day) == days
  {
    if days != [] {
      assert days == [days[0]] + days[1..];
      WithoutAbsent(days[1..], day);
    }
  }

  lemma {:induction false} WithoutAppended(days: seq<string>, day: string)
    requires day !in days
    ensures Without(days + [day], day) == days
  {
    if days == [] {
      assert [] + [day] == [day];
      assert [day][1..] == [];
    } else {
      assert (days + [day])[1..] == days[1..] + [day];
      WithoutAppended(days[1..], day);
      assert days == [days[0]] + days[1..];
    }
  }

  /**
   * The weekday checkbox: a selected day is removed (every occurrence,
   * the other days keeping their order), an unselected one is appended;
   * the other form fields are untouched.
   */
  function HandleDaySelection(form: FormData, day: string): (r: FormData)
    ensures r.(listOfDays := form.listOfDays) == form
    ensures day in r.listOfDays <==> day !in form.listOfDays
    ensures day !in form.listOfDays ==> r.listOfDays == form.listOfDays + [day]
    ensures day in form.listOfDays ==>
      forall x :: x != day ==> multiset(r.listOfDays)[x] == multiset(form.listOfDays)[x]
    ensures day in form.listOfDays ==> Timetable.IsSubsequence(r.listOfDays, form.listOfDays)
  {
    if day in form.listOfDays then
      WithoutIsSubsequence(form.listOfDays, day);
      form.(listOfDays := Without(form.listOfDays, day))
    else
      form.(listOfDays := form.listOfDays + [day])
  }

  /** Ticking an unticked day and unticking it again restores the form. */
  lemma ToggleTwiceRestores(form: FormData, day: string)
    requires day !in form.listOfDays
    ensures HandleDaySelection(HandleDaySelection(form, day), day) == form
  {
    WithoutAppended(form.listOfDays, day);
  }

  // ---------------------------------------------------------------------
  // The generate button

  /** An uploaded file, known here by its name only. */
  type PdfFile = string

  const ModelName: string := "gemini-2.0-flash"

  /** What is sent: the files, the form and the model name. */
  datatype GenerateRequest = GenerateRequest(files: seq<PdfFile>, form: FormData, modelName: string)

  datatype GenerateOutcome =
    | MissingFiles       // "Please upload at least one PDF file."
    | MissingFields      // "Please fill all required fields."
    | Send(request: GenerateRequest)

  /**
   * The checks made before a generate request goes out: at least one file,
   * then non-empty start and end times and at least one selected day.
   */
  function GenerateTimetable(files: Option<seq<PdfFile>>, form: FormData): (r: GenerateOutcome)
    ensures r.MissingFiles? <==> files.None? || |files.value| == 0
    ensures r.Send? <==>
      && files.Some? && |files.value| > 0
      && form.startTime != "" && form.endTime != "" && |form.listOfDays| > 0
    ensures r.Send? ==> r.request == GenerateRequest(files.value, form, ModelName)
  {
    if files.None? || |files.value| == 0 then MissingFiles
    else if form.startTime == "" || form.endTime == "" || |form.listOfDays| == 0 then MissingFields
    else Send(GenerateRequest(files.value, form, ModelName))
  }
}
