/**
 * The practitioner's view of one patient: the exercise routine (a list of
 * catalogue exercise ids) shown as cards and edited by adding exercises, the
 * conversation summaries listed newest first, and the date format used for
 * them.
 */
module PatientDetails {
  import opened Wrappers
  import Decimal

  /** A catalogue document id. */
  type ExerciseId = string

  /** A catalogue exercise, with the fields the view shows. */
  datatype Exercise = Exercise(
    id: ExerciseId,
    title: string,
    description: string,
    image: string,
    sets: int,
    reps: int,
    notes: string)

  /**
   * A patient document, with the fields the view reads; `exerciseRoutine`
   * may be absent from the document.
   */
  datatype Patient = Patient(
    name: string,
    age: int,
    email: string,
    lastLogin: Option<string>,
    exerciseRoutine: Option<seq<ExerciseId>>)

  /** A conversation summary; `date` is its timestamp in milliseconds. */
  datatype Conversation = Conversation(date: int, summary: string)

  /**
   * A date as the local-time getters of a JavaScript Date return it:
   * day of month, zero-based month, full year, hours and minutes.
   */
  datatype LocalDate = LocalDate(day: int, month0: int, year: int, hours: int, minutes: int)

  // ---------------------------------------------------------------------------
  // Searching the catalogue (Array.prototype.find and findIndex)

  /** The position of the first element satisfying p, if any. */
  function FindIndex<T>(s: seq<T>, p: T -> bool): (r: Option<nat>)
    ensures r.Some? ==> r.value < |s| && p(s[r.value])
    ensures r.Some? ==> forall j :: 0 <= j < r.value ==> !p(s[j])
    ensures r.None? <==> forall j :: 0 <= j < |s| ==> !p(s[j])
  {
    if |s| == 0 then None
    else if p(s[0]) then Some(0)
    else match FindIndex(s[1..], p)
      case None => None
      case Some(k) => Some(k + 1)
  }

  /** The first element satisfying p, if any. */
  function Find<T>(s: seq<T>, p: T -> bool): (r: Option<T>)
    ensures r.Some? ==> r.value in s && p(r.value)
    ensures r.Some? ==> exists k :: 0 <= k < |s| && s[k] == r.value && forall j :: 0 <= j < k ==> !p(s[j])
    ensures r.None? <==> forall j :: 0 <= j < |s| ==> !p(s[j])
  {
    match FindIndex(s, p)
    case None => None
    case Some(k) => Some(s[k])
  }

  /** The catalogue exercise a routine entry refers to (the first with that id). */
  function ExerciseById(catalogue: seq<Exercise>, id: ExerciseId): (r: Option<Exercise>)
    ensures r.Some? ==> r.value in catalogue && r.value.id == id
    ensures r.Some? ==> exists k :: 0 <= k < |catalogue| && catalogue[k] == r.value &&
                                    forall j :: 0 <= j < k ==> catalogue[j].id != id
    ensures r.None? <==> forall j :: 0 <= j < |catalogue| ==> catalogue[j].id != id
  {
    Find(catalogue, (e: Exercise) => e.id == id)
  }

  /** k is the position of the first catalogue exercise titled `title`. */
  ghost predicate IsFirstWithTitle(catalogue: seq<Exercise>, title: string, k: nat)
  {
    k < |catalogue| && catalogue[k].title == title &&
    forall j :: 0 <= j < k ==> catalogue[j].title != title
  }

  /** Every document id occurs once in the catalogue. */
  ghost predicate UniqueIds(catalogue: seq<Exercise>)
  {
    forall i, j :: 0 <= i < j < |catalogue| ==> catalogue[i].id != catalogue[j].id
  }

  // ---------------------------------------------------------------------------
  // Adding an exercise to the routine

  /** Why adding an exercise fails: no catalogue exercise has its title. */
  datatype AddError = NoExerciseWithTitle(title: string)

  /**
   * The routine after choosing `newExercise` in the exercise list: the id of
   * the first catalogue exercise with the same title is appended. With no such
   * exercise the source reads `id` of `undefined` and throws, so the routine
   * is never updated.
   */
  function AddExercise(routine: seq<ExerciseId>, catalogue: seq<Exercise>, newExercise: Exercise)
    : (r: Result<seq<ExerciseId>, AddError>)
    ensures r.Err? <==> forall j :: 0 <= j < |catalogue| ==> catalogue[j].title != newExercise.title
    ensures r.Err? ==> r.error == NoExerciseWithTitle(newExercise.title)
    ensures r.Ok? ==> |r.value| == |routine| + 1 && r.value[..|routine|] == routine
    ensures r.Ok? ==> exists k: nat :: IsFirstWithTitle(catalogue, newExercise.title, k) &&
                                  r.value[|routine|] == catalogue[k].id
  {
    match FindIndex(catalogue, (e: Exercise) => e.title == newExercise.title)
    case None => Err(NoExerciseWithTitle(newExercise.title))
    case Some(k) =>
      assert IsFirstWithTitle(catalogue, newExercise.title, k);
      Ok(routine + [catalogue[k].id])
  }

  // ---------------------------------------------------------------------------
  // Rendering the routine as cards

  /**
   * The cards shown for a routine: each entry resolved against the catalogue,
   * in routine order, with entries whose id has no exercise skipped.
   */
  function RoutineCards(routine: seq<ExerciseId>, catalogue: seq<Exercise>): (cards: seq<Exercise>)
    ensures |cards| <= |routine|
    ensures forall c :: c in cards ==> c in catalogue && c.id in routine
  {
    if routine == [] then []
    else
      var rest := RoutineCards(routine[1..], catalogue);
      match ExerciseById(catalogue, routine[0])
      case None => rest
      case Some(e) => [e] + rest
  }

  /** Cards of a concatenated routine are the cards of its parts, in order. */
  lemma {:induction false} RoutineCardsConcat(a: seq<ExerciseId>, b: seq<ExerciseId>, catalogue: seq<Exercise>)
    ensures RoutineCards(a + b, catalogue) == RoutineCards(a, catalogue) + RoutineCards(b, catalogue)
  {
    if a == [] {
      assert a + b == b;
    } else {
      assert (a + b)[0] == a[0];
      assert (a + b)[1..] == a[1..] + b;
      RoutineCardsConcat(a[1..], b, catalogue);
      var tail := RoutineCards(a[1..], catalogue);
      match ExerciseById(catalogue, a[0])
      case None =>
      case Some(e) =>
        assert [e] + (tail + RoutineCards(b, catalogue)) == [e] + tail + RoutineCards(b, catalogue);
    }
  }

  /** There is one card per routine entry exactly when every entry matches a catalogue exercise. */
  lemma {:induction false} AllMatchedCardCount(routine: seq<ExerciseId>, catalogue: seq<Exercise>)
    ensures |RoutineCards(routine, catalogue)| == |routine| <==>
            forall k :: 0 <= k < |routine| ==> ExerciseById(catalogue, routine[k]).Some?
  {
    if routine != [] {
      AllMatchedCardCount(routine[1..], catalogue);
      if forall k :: 0 <= k < |routine| ==> ExerciseById(catalogue, routine[k]).Some? {
        forall k | 0 <= k < |routine| - 1
          ensures ExerciseById(catalogue, routine[1..][k]).Some?
        {
          assert routine[1..][k] == routine[k + 1];
        }
      } else if ExerciseById(catalogue, routine[0]).Some? {
        var k :| 0 <= k < |routine| && ExerciseById(catalogue, routine[k]).None?;
        assert routine[k] == routine[1..][k - 1];
      }
    }
  }

  /** When every routine entry matches, card k shows the exercise of entry k. */
  lemma {:induction false} AllMatchedCardsInOrder(routine: seq<ExerciseId>, catalogue: seq<Exercise>)
    requires forall k :: 0 <= k < |routine| ==> ExerciseById(catalogue, routine[k]).Some?
    ensures |RoutineCards(routine, catalogue)| == |routine|
    ensures forall k :: 0 <= k < |routine| ==>
              RoutineCards(routine, catalogue)[k] == ExerciseById(catalogue, routine[k]).value
  {
    if routine != [] {
      forall k | 0 <= k < |routine| - 1
        ensures ExerciseById(catalogue, routine[1..][k]).Some?
      {
        assert routine[1..][k] == routine[k + 1];
      }
      AllMatchedCardsInOrder(routine[1..], catalogue);
      var cards := RoutineCards(routine, catalogue);
      forall k | 0 <= k < |routine|
        ensures cards[k] == ExerciseById(catalogue, routine[k]).value
      {
        if k > 0 {
          assert routine[k] == routine[1..][k - 1];
        }
      }
    }
  }

  /** The card of the exercise with document id `id`, when it is in the catalogue. */
  lemma CardOfCatalogueId(catalogue: seq<Exercise>, k: nat)
    requires k < |catalogue| && UniqueIds(catalogue)
    ensures ExerciseById(catalogue, catalogue[k].id) == Some(catalogue[k])
  {
    var r := ExerciseById(catalogue, catalogue[k].id);
    assert r.Some?;
    var i :| 0 <= i < |catalogue| && catalogue[i] == r.value;
    assert catalogue[i].id == catalogue[k].id;
  }

  /**
   * Adding an exercise by title puts exactly one new card, that exercise's,
   * after the cards already shown.
   */
  lemma AddExerciseAddsCard(routine: seq<ExerciseId>, catalogue: seq<Exercise>, newExercise: Exercise, k: nat)
    requires UniqueIds(catalogue)
    requires IsFirstWithTitle(catalogue, newExercise.title, k)
    ensures AddExercise(routine, catalogue, newExercise).Ok?
    ensures RoutineCards(AddExercise(routine, catalogue, newExercise).value, catalogue) ==
            RoutineCards(routine, catalogue) + [catalogue[k]]
  {
    var r := AddExercise(routine, catalogue, newExercise);
    assert r.Ok?;
    var k': nat :| IsFirstWithTitle(catalogue, newExercise.title, k') && r.value[|routine|] == catalogue[k'].id;
    assert k' == k;
    assert r.value == routine + [catalogue[k].id];
    RoutineCardsConcat(routine, [catalogue[k].id], catalogue);
    CardOfCatalogueId(catalogue, k);
    assert RoutineCards([catalogue[k].id], catalogue) == [catalogue[k]];
  }

  // ---------------------------------------------------------------------------
  // What the routine panel shows

  /**
   * The patient's details, and with them the whole routine panel, are drawn
   * only once the patient document has arrived; until then the view shows
   * "Loading patient details...".
   */
  predicate ShowsLoading(loaded: bool)
  {
    !loaded
  }

  /** "No exercises assigned" is shown for a loaded patient with an empty routine outside editing. */
  predicate ShowsNoExercisesMessage(loaded: bool, routine: seq<ExerciseId>, editing: bool)
    ensures ShowsNoExercisesMessage(loaded, routine, editing) ==> !ShowsLoading(loaded) && routine == []
    ensures ShowsNoExercisesMessage(loaded, routine, editing) ==> !editing
  {
    loaded && |routine| == 0 && !editing
  }

  /** The area of cards (and of the add button) is drawn where the message is not. */
  predicate ShowsCardArea(loaded: bool, routine: seq<ExerciseId>, editing: bool)
    ensures ShowsCardArea(loaded, routine, editing) <==> loaded && (routine != [] || editing)
  {
    loaded && !ShowsNoExercisesMessage(loaded, routine, editing)
  }

  /** The add button sits in the card area and is drawn only while editing. */
  predicate ShowsAddButton(loaded: bool, routine: seq<ExerciseId>, editing: bool)
    ensures ShowsAddButton(loaded, routine, editing) <==> loaded && editing
  {
    ShowsCardArea(loaded, routine, editing) && editing
  }

  /**
   * Exactly one of the loading text, the empty message and the card area is
   * drawn, and the add button never shows together with the message.
   */
  lemma PanelAlternatives(loaded: bool, routine: seq<ExerciseId>, editing: bool)
    ensures ShowsLoading(loaded) != (ShowsNoExercisesMessage(loaded, routine, editing) ||
                                     ShowsCardArea(loaded, routine, editing))
    ensures !(ShowsNoExercisesMessage(loaded, routine, editing) && ShowsCardArea(loaded, routine, editing))
    ensures !(ShowsAddButton(loaded, routine, editing) && ShowsNoExercisesMessage(loaded, routine, editing))
  {
  }

  // ---------------------------------------------------------------------------
  // Conversation summaries, newest first

  /** Dates never increase along the list. */
  predicate NewestFirst(cs: seq<Conversation>)
  {
    forall i, j :: 0 <= i < j < |cs| ==> cs[i].date >= cs[j].date
  }

  /** Inserts c into a newest-first list, before the first entry that is not newer. */
  function InsertByDate(c: Conversation, cs: seq<Conversation>): (r: seq<Conversation>)
    requires NewestFirst(cs)
    ensures NewestFirst(r)
    ensures multiset(r) == multiset(cs) + multiset{c}
    ensures r[0] == c || (cs != [] && r[0] == cs[0])
  {
    if cs == [] || c.date >= cs[0].date then [c] + cs
    else
      var rest := InsertByDate(c, cs[1..]);
      assert cs == [cs[0]] + cs[1..];
      [cs[0]] + rest
  }

  /**
   * The conversations ordered by the comparator `b.date - a.date`: newest
   * first, and exactly the fetched records.
   */
  function SortNewestFirst(cs: seq<Conversation>): (r: seq<Conversation>)
    ensures NewestFirst(r)
    ensures multiset(r) == multiset(cs)
  {
    if cs == [] then []
    else
      assert cs == [cs[0]] + cs[1..];
      InsertByDate(cs[0], SortNewestFirst(cs[1..]))
  }

  /** Sorting keeps the number of records. */
  lemma SortKeepsLength(cs: seq<Conversation>)
    ensures |SortNewestFirst(cs)| == |cs|
  {
    assert |multiset(SortNewestFirst(cs))| == |multiset(cs)|;
  }

  // ---------------------------------------------------------------------------
  // Date format: D/M/YYYY H:MM

  /** An integral number as a template literal renders it. */
  function IntText(x: int): (s: string)
    ensures x >= 0 ==> Decimal.IsNumeral(s) && Decimal.ToNat(s) == x
    ensures x < 0 ==> |s| > 1 && s[0] == '-' && Decimal.IsNumeral(s[1..]) && Decimal.ToNat(s[1..]) == -x
  {
    if x < 0 then
      Decimal.ToNatFromNat(-x);
      assert ("-" + Decimal.FromNat(-x))[1..] == Decimal.FromNat(-x);
      "-" + Decimal.FromNat(-x)
    else
      Decimal.ToNatFromNat(x);
      Decimal.FromNat(x)
  }

  /**
   * The minutes, with a "0" in front when below 10; a non-negative value is
   * a numeral that reads back as the minutes.
   */
  function MinutesText(minutes: int): (s: string)
    ensures minutes >= 0 ==> Decimal.IsNumeral(s) && Decimal.ToNat(s) == minutes
    ensures 0 <= minutes < 10 ==> s[0] == '0'
  {
    if minutes < 10 then
      if minutes >= 0 then Decimal.ToNatLeadingZero(IntText(minutes)); "0" + IntText(minutes)
      else "0" + IntText(minutes)
    else IntText(minutes)
  }

  /** `formatDate`: empty for a missing date, otherwise D/M/YYYY H:MM. */
  function FormatDate(date: Option<LocalDate>): (s: string)
    ensures s == "" <==> date.None?
  {
    match date
    case None => ""
    case Some(d) =>
      IntText(d.day) + "/" + IntText(d.month0 + 1) + "/" + IntText(d.year) + " " +
      IntText(d.hours) + ":" + MinutesText(d.minutes)
  }

  /** The ranges the local-time getters return (years of the common era). */
  predicate InCalendarRange(d: LocalDate)
  {
    1 <= d.day <= 31 && 0 <= d.month0 <= 11 && 0 <= d.year &&
    0 <= d.hours <= 23 && 0 <= d.minutes <= 59
  }

  /**
   * Minutes always take two digits, the first a '0' exactly below 10. Day,
   * month and hours are not padded; hour 0 is written "0".
   */
  lemma FieldWidths(d: LocalDate)
    requires InCalendarRange(d)
    ensures |MinutesText(d.minutes)| == 2
    ensures MinutesText(d.minutes)[0] == '0' <==> d.minutes < 10
    ensures IntText(d.day)[0] != '0' && IntText(d.month0 + 1)[0] != '0'
    ensures IntText(d.hours)[0] == '0' <==> d.hours == 0
    ensures d.day < 10 ==> |IntText(d.day)| == 1
    ensures d.month0 + 1 < 10 ==> |IntText(d.month0 + 1)| == 1
    ensures d.hours < 10 ==> |IntText(d.hours)| == 1
  {
    if d.minutes >= 10 {
      Decimal.TwoDigits(d.minutes);
      Decimal.FromNatNoLeadingZero(d.minutes);
    }
    Decimal.FromNatNoLeadingZero(d.day);
    Decimal.FromNatNoLeadingZero(d.month0 + 1);
    Decimal.FromNatNoLeadingZero(d.hours);
  }

  // ---------------------------------------------------------------------------
  // Reading a formatted date back

  /** Splits s at the first occurrence of sep. */
  function Split(s: string, sep: char): (r: Option<(string, string)>)
    ensures r.None? <==> sep !in s
    ensures r.Some? ==> sep !in r.value.0 && s == r.value.0 + [sep] + r.value.1
  {
    if s == [] then None
    else if s[0] == sep then Some(([], s[1..]))
    else match Split(s[1..], sep)
      case None => None
      case Some((a, b)) => Some(([s[0]] + a, b))
  }

  lemma {:induction false} SplitAt(a: string, sep: char, b: string)
    requires sep !in a
    ensures Split(a + [sep] + b, sep) == Some((a, b))
  {
    if a != [] {
      assert (a + [sep] + b)[1..] == a[1..] + [sep] + b;
      SplitAt(a[1..], sep, b);
      assert [a[0]] + a[1..] == a;
    }
  }

  /** Reads D/M/YYYY H:MM back into its fields; None for any other text. */
  function ParseDate(s: string): Option<LocalDate>
  {
    match Split(s, '/')
    case None => None
    case Some((dayText, rest1)) =>
      match Split(rest1, '/')
      case None => None
      case Some((monthText, rest2)) =>
        match Split(rest2, ' ')
        case None => None
        case Some((yearText, rest3)) =>
          match Split(rest3, ':')
          case None => None
          case Some((hoursText, minutesText)) =>
            if Decimal.IsNumeral(dayText) && Decimal.IsNumeral(monthText) &&
               Decimal.IsNumeral(yearText) && Decimal.IsNumeral(hoursText) &&
               Decimal.IsNumeral(minutesText)
            then Some(LocalDate(Decimal.ToNat(dayText), Decimal.ToNat(monthText) - 1,
                                Decimal.ToNat(yearText), Decimal.ToNat(hoursText),
                                Decimal.ToNat(minutesText)))
            else None
  }

  lemma NumeralHasNoSeparator(x: nat, sep: char)
    requires !Decimal.IsDigit(sep)
    ensures sep !in Decimal.FromNat(x)
  {
  }

  /** The formatted text determines the date: reading it back gives the same fields. */
  lemma FormatDateRoundTrip(d: LocalDate)
    requires 0 <= d.day && 0 <= d.month0 && 0 <= d.year && 0 <= d.hours && 0 <= d.minutes
    ensures ParseDate(FormatDate(Some(d))) == Some(d)
  {
    var dayText, monthText, yearText := IntText(d.day), IntText(d.month0 + 1), IntText(d.year);
    var hoursText, minutesText := IntText(d.hours), MinutesText(d.minutes);
    var rest3 := hoursText + [':'] + minutesText;
    var rest2 := yearText + [' '] + rest3;
    var rest1 := monthText + ['/'] + rest2;
    assert FormatDate(Some(d)) == dayText + ['/'] + rest1;
    NumeralHasNoSeparator(d.day, '/');
    NumeralHasNoSeparator(d.month0 + 1, '/');
    NumeralHasNoSeparator(d.year, ' ');
    NumeralHasNoSeparator(d.hours, ':');
    SplitAt(dayText, '/', rest1);
    SplitAt(monthText, '/', rest2);
    SplitAt(yearText, ' ', rest3);
    SplitAt(hoursText, ':', minutesText);
  }

  /** Distinct dates are formatted differently. */
  lemma FormatDateInjective(d1: LocalDate, d2: LocalDate)
    requires InCalendarRange(d1) && InCalendarRange(d2)
    requires FormatDate(Some(d1)) == FormatDate(Some(d2))
    ensures d1 == d2
  {
    FormatDateRoundTrip(d1);
    FormatDateRoundTrip(d2);
  }

  // ---------------------------------------------------------------------------
  // The component's state

  /** The state the patient-details view keeps between renders. */
  class PatientDetailsState {
    /** The patient document, once one has arrived (`null` before). */
    var patient: Option<Patient>
    /** The practitioner's exercise catalogue. */
    var exercises: seq<Exercise>
    /** The patient's routine: catalogue ids in order (`patientExercises`). */
    var patientExercises: seq<ExerciseId>
    /** The conversation summaries as displayed. */
    var convos: seq<Conversation>
    /** Whether the routine is being edited. */
    var editing: bool

    /** The state before any snapshot arrives: loading, with nothing to show. */
    constructor ()
      ensures patient == None && exercises == [] && patientExercises == [] && convos == [] && !editing
      ensures ShowsLoading(patient.Some?) && !ShowsNoExercisesMessage(patient.Some?, patientExercises, editing)
    {
      patient := None;
      exercises := [];
      patientExercises := [];
      convos := [];
      editing := false;
    }

    /**
     * A patient snapshot: `doc` is None when the document does not exist,
     * which the source only logs. An existing document becomes the patient,
     * and it replaces the routine only when it has an `exerciseRoutine` field.
     */
    method OnPatientSnapshot(doc: Option<Patient>)
      modifies this
      ensures patient == if doc.Some? then doc else old(patient)
      ensures patientExercises == if doc.Some? && doc.value.exerciseRoutine.Some?
                                  then doc.value.exerciseRoutine.value
                                  else old(patientExercises)
      ensures exercises == old(exercises) && convos == old(convos) && editing == old(editing)
    {
      if doc.Some? {
        patient := doc;
        if doc.value.exerciseRoutine.Some? {
          patientExercises := doc.value.exerciseRoutine.value;
        }
      }
    }

    /** A conversations snapshot replaces the list with its records, newest first. */
    method OnConversationsSnapshot(records: seq<Conversation>)
      modifies this
      ensures convos == SortNewestFirst(records)
      ensures NewestFirst(convos) && multiset(convos) == multiset(records)
      ensures patient == old(patient) && exercises == old(exercises)
      ensures patientExercises == old(patientExercises) && editing == old(editing)
    {
      convos := SortNewestFirst(records);
    }

    /** An exercises snapshot replaces the catalogue. */
    method OnExercisesSnapshot(catalogue: seq<Exercise>)
      modifies this
      ensures exercises == catalogue
      ensures patient == old(patient) && patientExercises == old(patientExercises)
      ensures convos == old(convos) && editing == old(editing)
    {
      exercises := catalogue;
    }

    /**
     * `handleAddExercise`: appends the id of the first catalogue exercise
     * titled like `newExercise`; with none, fails and changes nothing.
     */
    method HandleAddExercise(newExercise: Exercise) returns (r: Result<(), AddError>)
      modifies this
      ensures r.Ok? <==> AddExercise(old(patientExercises), exercises, newExercise).Ok?
      ensures patientExercises ==
              match AddExercise(old(patientExercises), exercises, newExercise)
              case Ok(routine) => routine
              case Err(_) => old(patientExercises)
      ensures r.Ok? ==> |patientExercises| == |old(patientExercises)| + 1 &&
                        patientExercises[..|old(patientExercises)|] == old(patientExercises)
      ensures patient == old(patient) && exercises == old(exercises)
      ensures convos == old(convos) && editing == old(editing)
    {
      var k := FindIndex(exercises, (e: Exercise) => e.title == newExercise.title);
      match k {
        case None =>
          r := Err(NoExerciseWithTitle(newExercise.title));
        case Some(i) =>
          patientExercises := patientExercises + [exercises[i].id];
          r := Ok(());
      }
    }

    /** `handleEditing`: flips the editing flag and nothing else. */
    method HandleEditing()
      modifies this
      ensures editing == !old(editing)
      ensures patient == old(patient) && exercises == old(exercises)
      ensures patientExercises == old(patientExercises) && convos == old(convos)
    {
      editing := !editing;
    }

    /** The Edit button, drawn for a loaded patient outside editing. */
    method ClickEdit()
      requires patient.Some? && !editing
      modifies this
      ensures editing
      ensures patient == old(patient) && exercises == old(exercises)
      ensures patientExercises == old(patientExercises) && convos == old(convos)
    {
      HandleEditing();
    }

    /** The Save button, drawn for a loaded patient while editing: it only leaves editing. */
    method ClickSave()
      requires patient.Some? && editing
      modifies this
      ensures !editing
      ensures patient == old(patient) && exercises == old(exercises)
      ensures patientExercises == old(patientExercises) && convos == old(convos)
    {
      HandleEditing();
    }

    /** The X button, drawn for a loaded patient while editing: it also only leaves editing. */
    method ClickCancel()
      requires patient.Some? && editing
      modifies this
      ensures !editing
      ensures patient == old(patient) && exercises == old(exercises)
      ensures patientExercises == old(patientExercises) && convos == old(convos)
    {
      HandleEditing();
    }

    /** The cards the routine panel shows now: none unless the card area is drawn. */
    function Cards(): (cards: seq<Exercise>)
      reads this
      ensures !ShowsCardArea(patient.Some?, patientExercises, editing) ==> cards == []
      ensures ShowsCardArea(patient.Some?, patientExercises, editing) ==>
              cards == RoutineCards(patientExercises, exercises)
      ensures |cards| <= |patientExercises|
    {
      if ShowsCardArea(patient.Some?, patientExercises, editing)
      then RoutineCards(patientExercises, exercises)
      else []
    }
  }
}
