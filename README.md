# Exercise carousel and patient-details logic of mobility-mate-frontend

This project models, in Dafny, the little state and list logic inside two React
views of the MobilityMate web app:

- **The patient's "Assigned Exercises" carousel** (`src/views/patient/components/Exercises.jsx`).
  It holds one piece of state, `currentIndex`. It starts at 0. The left and right
  arrows step back and forward with wrap-around. One dot per exercise jumps to
  that exercise, and the dot of the current exercise is highlighted. The model is
  the class `Exercises.Carousel`, with the index functions `NextIndex` and
  `PrevIndex` that its methods are proved against. Lemmas relate these to
  arithmetic modulo the list length and prove the inverse and full-cycle laws.
- **The practitioner's patient-details view** (`src/views/practitioner/components/PatientDetails.jsx`).
  It adds an exercise to a patient's routine by title. It resolves routine ids
  against the exercise catalogue into cards. It sorts conversation summaries
  newest first, formats their dates as `D/M/YYYY H:MM`, and toggles an editing
  flag that decides what the routine panel shows. Module `PatientDetails` holds
  these as functions. The class `PatientDetails.PatientDetailsState` holds the
  component's state (`patient`, `exercises`, `patientExercises`, `convos`, `editing`),
  with a method per handler and per snapshot callback. The routine panel and its
  buttons are drawn only once the patient document has arrived; before that the
  view shows "Loading patient details...".

Files: `wrappers.dfy` (Option and Result), `decimal.dfy` (rendering a natural
number in decimal and reading it back), `exercises.dfy`, `patient_details.dfy`.

Two points where the code is narrower than one might expect:

- Routine editing has no remove-by-index, Save does not write to the database,
  and X does not restore the saved routine. Save, X and Edit all just call
  `handleEditing`, and the model proves that none of them changes the routine.
- The comment on line 38 says the conversations are sorted "in ascending order".
  The comparator `b.date - a.date` puts the newest first, and the model follows
  the comparator.

`handleAddExercise` with a title that matches no catalogue exercise leaves
`exercise` undefined. The updater `(prev) => [...prev, exercise.id]` then throws a
TypeError when React applies it during the next render, and with no error boundary
the view goes down. The model stands in for this crash with an error result
(`AddError.NoExerciseWithTitle`) and a routine left unchanged.

## Model

| member | source | states |
|---|---|---|
| `Exercises.NextIndex` | src/views/patient/components/Exercises.jsx:42-46 | on an in-range index of a list of n exercises, the next index is in [0, n) and equals (i + 1) mod n |
| `Exercises.PrevIndex` | src/views/patient/components/Exercises.jsx:36-40 | on an in-range index, the previous index is in [0, n) and equals (i - 1 + n) mod n |
| `Exercises.PrevUndoesNext` | src/views/patient/components/Exercises.jsx:36-46 | a step forward followed by a step back returns to the starting index |
| `Exercises.NextUndoesPrev` | src/views/patient/components/Exercises.jsx:36-46 | a step back followed by a step forward returns to the starting index |
| `Exercises.SingleSlide` | src/views/patient/components/Exercises.jsx:36-46 | with one exercise, both arrows leave the index at 0 |
| `Exercises.AdvanceWithinTurn` | src/views/patient/components/Exercises.jsx:42-46 | k <= n presses of the right arrow land on i + k, wrapped past the last slide at most once |
| `Exercises.RetreatWithinTurn` | src/views/patient/components/Exercises.jsx:36-40 | k <= n presses of the left arrow land on i - k, wrapped past the first slide at most once |
| `Exercises.AdvanceMod` | src/views/patient/components/Exercises.jsx:42-46 | k <= n presses of the right arrow land on (i + k) mod n |
| `Exercises.RetreatMod` | src/views/patient/components/Exercises.jsx:36-40 | k <= n presses of the left arrow land on (i - k) mod n |
| `Exercises.AdvanceAdd` | src/views/patient/components/Exercises.jsx:42-46 | a presses then b presses of the right arrow equal a + b presses |
| `Exercises.RetreatAdd` | src/views/patient/components/Exercises.jsx:36-40 | a presses then b presses of the left arrow equal a + b presses |
| `Exercises.AdvanceIsModular` | src/views/patient/components/Exercises.jsx:42-46 | any number k of right-arrow presses lands on (i + k) mod n |
| `Exercises.RetreatIsModular` | src/views/patient/components/Exercises.jsx:36-40 | any number k of left-arrow presses lands on (i - k) mod n |
| `Exercises.FullCycle` | src/views/patient/components/Exercises.jsx:36-46 | n presses of either arrow return to the starting index |
| `Exercises.Periodic` | src/views/patient/components/Exercises.jsx:36-46 | k + n presses of either arrow land where k presses do |
| `Exercises.Dots` | src/views/patient/components/Exercises.jsx:67-74 | one dot per exercise; which dot is highlighted is stated by `CountDots` and `ExactlyOneDot` |
| `Exercises.CountDots` | src/views/patient/components/Exercises.jsx:67-76 | one dot per exercise; exactly one is highlighted when the index is in range, none otherwise |
| `Exercises.ExactlyOneDot` | src/views/patient/components/Exercises.jsx:72-74 | with an in-range index exactly one dot is highlighted, the one whose position is the current index |
| `Exercises.Carousel.constructor` | src/views/patient/components/Exercises.jsx:34 | the index starts at 0, which is valid for a non-empty list |
| `Exercises.Carousel.PrevSlide` | src/views/patient/components/Exercises.jsx:36-40 | sets the index to PrevIndex of the old one: from 0 to n - 1, otherwise one less; keeps the index in range |
| `Exercises.Carousel.NextSlide` | src/views/patient/components/Exercises.jsx:42-46 | sets the index to NextIndex of the old one: from n - 1 to 0, otherwise one more; keeps the index in range |
| `Exercises.Carousel.GoToSlide` | src/views/patient/components/Exercises.jsx:48 | sets the index to exactly the given value, which leaves it in range for every dot index 0 .. n - 1 |
| `Exercises.Carousel.HighlightedDots` | src/views/patient/components/Exercises.jsx:67-76 | one dot per exercise, and in a valid state exactly one is highlighted, the current one |
| `Exercises.NextThenPrev` | src/views/patient/components/Exercises.jsx:63-80 | clicking the right arrow, then the left arrow, leaves a valid carousel on the same exercise |
| `Exercises.PrevThenNext` | src/views/patient/components/Exercises.jsx:63-80 | clicking the left arrow, then the right arrow, leaves a valid carousel on the same exercise |
| `PatientDetails.FindIndex` | src/views/practitioner/components/PatientDetails.jsx:85 | returns the position of the first element satisfying the test, or nothing exactly when no element does |
| `PatientDetails.Find` | src/views/practitioner/components/PatientDetails.jsx:85 | returns the first element satisfying the test, or nothing exactly when no element does |
| `PatientDetails.ExerciseById` | src/views/practitioner/components/PatientDetails.jsx:148 | returns the first catalogue exercise with the routine entry's id, or nothing exactly when no exercise has it |
| `PatientDetails.AddExercise` | src/views/practitioner/components/PatientDetails.jsx:84-87 | fails exactly when no catalogue exercise has the title; otherwise it adds exactly one entry at the end, the earlier entries stay as they were, and the new entry is the id of the first exercise with that title |
| `PatientDetails.RoutineCards` | src/views/practitioner/components/PatientDetails.jsx:147-150 | at most one card per routine entry; every card is a catalogue exercise whose id is in the routine |
| `PatientDetails.RoutineCardsConcat` | src/views/practitioner/components/PatientDetails.jsx:147-150 | the cards of a concatenated routine are the cards of its parts in order, so cards follow routine order and unmatched entries are skipped |
| `PatientDetails.AllMatchedCardCount` | src/views/practitioner/components/PatientDetails.jsx:147-150 | there is one card per routine entry exactly when every entry matches a catalogue exercise |
| `PatientDetails.AllMatchedCardsInOrder` | src/views/practitioner/components/PatientDetails.jsx:147-150 | when every entry matches, card k is the exercise of routine entry k |
| `PatientDetails.CardOfCatalogueId` | src/views/practitioner/components/PatientDetails.jsx:148 | with unique document ids, a catalogue exercise's id resolves to that exercise |
| `PatientDetails.AddExerciseAddsCard` | src/views/practitioner/components/PatientDetails.jsx:84-87 | with unique document ids, adding an exercise by title succeeds and shows exactly one new card, that exercise, after the existing cards |
| `PatientDetails.ShowsLoading` | src/views/practitioner/components/PatientDetails.jsx:107-217 | defines the loading branch: "Loading patient details..." is drawn exactly while no patient document has arrived; `PanelAlternatives` and the constructor state its properties |
| `PatientDetails.ShowsNoExercisesMessage` | src/views/practitioner/components/PatientDetails.jsx:142 | when the message shows, the patient is loaded (no loading text), the routine is empty and the routine is not being edited |
| `PatientDetails.ShowsCardArea` | src/views/practitioner/components/PatientDetails.jsx:142-188 | defined as the else branch of the message inside the loaded gate; its contract states what that branch amounts to: a loaded patient whose routine is non-empty or is being edited |
| `PatientDetails.ShowsAddButton` | src/views/practitioner/components/PatientDetails.jsx:175 | the add button shows exactly for a loaded patient while editing |
| `PatientDetails.PanelAlternatives` | src/views/practitioner/components/PatientDetails.jsx:107-218 | exactly one of the loading text, the empty message and the card area is drawn; the add button never shows with the message |
| `PatientDetails.InsertByDate` | src/views/practitioner/components/PatientDetails.jsx:38 | inserting into a newest-first list keeps it newest first and adds exactly the one record |
| `PatientDetails.SortNewestFirst` | src/views/practitioner/components/PatientDetails.jsx:33-38 | the result is ordered by date non-increasing and is a permutation of the fetched records |
| `PatientDetails.SortKeepsLength` | src/views/practitioner/components/PatientDetails.jsx:33-38 | sorting keeps the number of conversations |
| `PatientDetails.IntText` | src/views/practitioner/components/PatientDetails.jsx:96-98 | a number's text reads back as the number; a negative one is "-" before the digits of its magnitude |
| `PatientDetails.MinutesText` | src/views/practitioner/components/PatientDetails.jsx:96-98 | non-negative minutes render as digits that read back as the minutes, starting with "0" below 10 |
| `PatientDetails.FormatDate` | src/views/practitioner/components/PatientDetails.jsx:89-99 | the text is empty exactly for a missing date |
| `PatientDetails.FieldWidths` | src/views/practitioner/components/PatientDetails.jsx:91-98 | minutes always take two digits, with a leading "0" exactly below 10; day, month and hours are not padded |
| `PatientDetails.FormatDateRoundTrip` | src/views/practitioner/components/PatientDetails.jsx:89-99 | reading a formatted date back as D/M/YYYY H:MM gives the same fields, for non-negative fields |
| `PatientDetails.FormatDateInjective` | src/views/practitioner/components/PatientDetails.jsx:89-99 | two calendar dates with the same text are the same date |
| `Decimal.FromNat` | src/views/practitioner/components/PatientDetails.jsx:96-98 | a number renders as a non-empty string of digits, one digit exactly below 10 |
| `Decimal.ToNatFromNat` | src/views/practitioner/components/PatientDetails.jsx:96-98 | the decimal text of a number reads back as that number |
| `Decimal.FromNatNoLeadingZero` | src/views/practitioner/components/PatientDetails.jsx:96-98 | a number's decimal text starts with '0' only for 0 |
| `PatientDetails.PatientDetailsState.constructor` | src/views/practitioner/components/PatientDetails.jsx:7-11 | the view starts with no patient, empty catalogue, routine and conversations, and not editing; it shows the loading text and not the empty message |
| `PatientDetails.PatientDetailsState.OnPatientSnapshot` | src/views/practitioner/components/PatientDetails.jsx:24-44 | an existing document becomes the patient and replaces the routine only when it has an `exerciseRoutine` field; a missing document changes nothing |
| `PatientDetails.PatientDetailsState.OnConversationsSnapshot` | src/views/practitioner/components/PatientDetails.jsx:32-40 | the conversations become the fetched records, newest first and a permutation of them |
| `PatientDetails.PatientDetailsState.OnExercisesSnapshot` | src/views/practitioner/components/PatientDetails.jsx:52-59 | the catalogue is replaced wholesale |
| `PatientDetails.PatientDetailsState.HandleAddExercise` | src/views/practitioner/components/PatientDetails.jsx:84-87 | the routine becomes AddExercise's result, one entry longer with the old entries first; on failure nothing changes |
| `PatientDetails.PatientDetailsState.HandleEditing` | src/views/practitioner/components/PatientDetails.jsx:101-103 | the editing flag is negated and nothing else changes |
| `PatientDetails.PatientDetailsState.ClickEdit` | src/views/practitioner/components/PatientDetails.jsx:130-137 | Edit, drawn for a loaded patient outside editing, enters editing and leaves the routine as it is |
| `PatientDetails.PatientDetailsState.ClickSave` | src/views/practitioner/components/PatientDetails.jsx:120-125 | Save, drawn while editing, only leaves editing; patient, routine, catalogue and conversations are unchanged |
| `PatientDetails.PatientDetailsState.ClickCancel` | src/views/practitioner/components/PatientDetails.jsx:126-128 | X, drawn while editing, only leaves editing; patient, routine, catalogue and conversations are unchanged |
| `PatientDetails.PatientDetailsState.Cards` | src/views/practitioner/components/PatientDetails.jsx:140-174 | no cards unless the card area is drawn, then the routine's resolved cards, never more than routine entries |

## Left out

- Database access: `getCurrentUser`, the `onSnapshot` subscriptions and their cleanup, `doc.data()` and `toDate()`. These are calls into an external SDK. The snapshot callbacks are methods that take the data they would deliver as parameters.
- PatientDetails.PatientDetailsState.HandleAddExercise: on a title with no catalogue match the source crashes the view during the next render; the model returns an error and keeps the state, and does not model the crash.
- The patient's name, age, email and last login are kept in the `Patient` record but their rendering (lines 109-115, including `lastLogin || "Never"`) is markup and is not modelled.
- PatientDetails.AddExerciseAddsCard: holds only when catalogue ids are unique. The merge `{ id: doc.id, ...doc.data() }` lets a data field `id` override the document id, so uniqueness is not guaranteed. With a repeated id, line 148 resolves the new entry to the first exercise with that id, which may differ from the one chosen by title.
- The merge of document id and document data into a catalogue entry (lines 52-59). Catalogue entries are given as `Exercise` records.
- JavaScript `Date`: its time zone and its local-time getters. `formatDate` takes the broken-down local fields (`LocalDate`), and conversations carry an integer timestamp for sorting. The model does not relate one to the other. A JavaScript `Date` object is always truthy, so only a missing date takes the empty branch. An invalid `Date` (NaN fields) is not modelled.
- The conversation table (lines 192-213), which calls `formatDate` on each row, is not modelled apart from `FormatDate` itself.
- `SortNewestFirst`: states sortedness and permutation only. Which of several equal-date records comes first, and the numeric subtraction in the comparator, are not modelled.
- `FormatDateRoundTrip`: stated for non-negative fields only. Negative years and minutes are formatted as the source does (`IntText`, `MinutesText`), but the round trip is not proved for them.
- The exercise-list modal (`showModal`, `ExerciseListModal`): its source is not part of this model.
- Navigation in `handleStartWorkout`, the static progress bar, and all markup, styling and icons.
- React's re-rendering and closures. Each handler is one atomic state update.
- A list that shrinks below `currentIndex`. The source does not handle it, and the carousel's `length` is fixed.
- An empty exercise list. The source's first render reads `exercises[0].image` and crashes; the model's `Carousel` accepts `length == 0`, where the arrows step to 1 or -1 and `Valid()` never holds.
- The commented-out `handleAddExercises` (lines 70-82).
