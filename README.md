# Event agenda screen: a Dafny model

The app is a single Android screen for noting calendar events (`Evento`):
a title, a date and an optional description, each with a generated id.
The screen keeps the events in an in-memory list, `listaEventos`. Its buttons do the following:

- **save** validates the form and appends one event;
- **filter** shows the events whose title contains the filter text, ignoring case;
- **sort** shows the events ordered by their date string;
- **clear** shows the full list again.

The list view shows one `Título:/Fecha:/Descripción:` block per event, or
`No hay eventos que coincidan.` for an empty list. The date picker writes
its choice into the date field as `%d-%02d-%02d` of (year, month + 1, day).

The model has these parts:

- `Wrappers`: an `Option` type for Kotlin's nullable `String?`.
- `Events` (`Evento.kt`): the `Evento` data class and the `crearEvento` factory.
- `Strings`: the two library operations the list relies on.
  - `String.compareTo`, which `sortedBy` uses. It is lexicographic by character code, and a prefix comes first.
  - `contains(…, ignoreCase = true)`. A region match is tried at each start index, and characters are compared with the `Char.equals(ignoreCase)` rule.
- `DateFormat`: the picker's format expression, with Kotlin's 32-bit `Int` wrap-around for `month + 1`.
- `EventViews`: the derived views filter, sort and render. These are pure functions over `seq<Evento>`.
- `MainActivity`: the class `EventStore`.
  - Its fields are `listaEventos` and `textoMostrado`, the text of the list view.
  - Its methods are the four click handlers and `UpdateEventList` (`actualizarListaEventos`).
  - Beside the class, `SaveEvent` is the pure list transition of the save button.

The code does not trim or re-case input, sorts by date only, and does not generate ids itself:

- save checks `isNotEmpty` only. Nothing is trimmed and the title's case is not changed, so a title made only of spaces is stored as it is.
- sort is by date only, ascending, and has no choice dialog.
- IDs are not generated inside this model. The value the id generator returned is passed to the save handler as `newId`. That ids are distinct is an assumption of `SaveKeepsIdsDistinct`, not a guarantee.

The main results are these:

- The filter returns exactly the matching events as a subsequence, in order (`FilterIsMatchingSubsequence`). The empty filter returns the whole list (`FilterEmptyKeepsAll`).
- The date sort is a sorted permutation (`SortByFechaSortedPermutation`) and is stable (`SortByFechaStable`). It is the only list with both properties, so any stable sort gives the same result (`SortByFechaCharacterized`).
- Rendering gives the fixed message exactly for the empty list. It is otherwise a join that distributes over concatenation (`Render`, `RenderAppend`).
- For four-digit years, lexicographic order of picker dates is chronological order (`FourDigitDatesSortChronologically`). Beyond four digits it is not (`FiveDigitYearSortsFirst`).

## Model

| member | source | states |
|---|---|---|
| Events.CrearEvento | app/src/main/java/cl/lte/ae1_abpro/Evento.kt:30-32 | the new event carries the generated id and the title, date and description exactly as given, null included |
| Events.CrearEventoInjective | app/src/main/java/cl/lte/ae1_abpro/Evento.kt:30-32 | two created events are equal exactly when all four arguments are equal |
| Events.StructuralEquality | app/src/main/java/cl/lte/ae1_abpro/Evento.kt:13-18 | data-class equality: two events are equal exactly when id, title, date and description are equal |
| Strings.LexLeReflexive | app/src/main/java/cl/lte/ae1_abpro/MainActivity.kt:59 | every date string compares at most equal to itself |
| Strings.LexLeTotal | app/src/main/java/cl/lte/ae1_abpro/MainActivity.kt:59 | any two strings are comparable under compareTo |
| Strings.LexLeAntisymmetric | app/src/main/java/cl/lte/ae1_abpro/MainActivity.kt:59 | strings each at most the other are equal |
| Strings.LexLeTransitive | app/src/main/java/cl/lte/ae1_abpro/MainActivity.kt:59 | the compareTo order is transitive |
| Strings.LexLeConcat | app/src/main/java/cl/lte/ae1_abpro/MainActivity.kt:59 | with equal-length first parts, the first parts decide the order unless they are equal, and then the rest decides |
| Strings.CharEqualsIgnoreCaseIsLower | app/src/main/java/cl/lte/ae1_abpro/MainActivity.kt:53 | with ASCII case maps, two characters match ignoring case exactly when their lower-case forms are equal |
| Strings.ContainsIgnoreCaseSpec | app/src/main/java/cl/lte/ae1_abpro/MainActivity.kt:53 | `contains(ignoreCase = true)` holds exactly when some start index 0 .. len(title) - len(filter) gives a case-insensitive region match |
| Strings.ContainsEmpty | app/src/main/java/cl/lte/ae1_abpro/MainActivity.kt:53 | every title contains the empty filter text |
| DateFormat.WrapInt32 | app/src/main/java/cl/lte/ae1_abpro/MainActivity.kt:82 | `month + 1` as a Kotlin Int: the same value inside the 32-bit range, and congruent to the mathematical sum modulo 2^32 |
| DateFormat.NatToDecimalRoundTrip | app/src/main/java/cl/lte/ae1_abpro/MainActivity.kt:82 | `%d` of a non-negative value is all digits and reads back as the value, with no leading zero |
| DateFormat.NatToDecimalLength | app/src/main/java/cl/lte/ae1_abpro/MainActivity.kt:82 | `%d` writes 1, 2, 3 or 4 characters for values with that many digits |
| DateFormat.Pad2RoundTrip | app/src/main/java/cl/lte/ae1_abpro/MainActivity.kt:82 | `%02d` of 0 .. 99 is exactly two digits that read back as the value |
| DateFormat.FormatDateShape | app/src/main/java/cl/lte/ae1_abpro/MainActivity.kt:81-82 | for month + 1 in 1 .. 12 and day in 1 .. 31, the text is the year in plain `%d` followed by `-MM-DD`, whose fields read back as month + 1 and as day; a non-negative year reads back too |
| DateFormat.DigitsOrder | app/src/main/java/cl/lte/ae1_abpro/MainActivity.kt:82 | for equal-length digit strings, compareTo order is numeric order and equality is equality of values |
| DateFormat.FourDigitDateParts | app/src/main/java/cl/lte/ae1_abpro/MainActivity.kt:82 | a four-digit year is written as four digits that read back as the year, followed by `-`, the month field, `-` and the day field |
| DateFormat.FourDigitDatesSortChronologically | app/src/main/java/cl/lte/ae1_abpro/MainActivity.kt:82 | for picker dates with four-digit years, compareTo order of the formatted strings is chronological (year, month, day) order, in both directions |
| DateFormat.FiveDigitYearSortsFirst | app/src/main/java/cl/lte/ae1_abpro/MainActivity.kt:82 | the string order is not chronological beyond four digits: 10000-01-01 sorts before 9999-01-01 |
| EventViews.Filter | app/src/main/java/cl/lte/ae1_abpro/MainActivity.kt:52-54 | the filtered view is no longer than the list and holds only events of the list whose title matches |
| EventViews.FilterIsMatchingSubsequence | app/src/main/java/cl/lte/ae1_abpro/MainActivity.kt:52-54 | the filtered view is the subsequence of the list, in original order, at exactly the positions whose title contains the filter, ignoring case |
| EventViews.FilterEmptyKeepsAll | app/src/main/java/cl/lte/ae1_abpro/MainActivity.kt:53 | filtering with "" returns the whole list in the same order |
| EventViews.FilterIgnoresCaseExample | app/src/main/java/cl/lte/ae1_abpro/MainActivity.kt:53 | the filter "meet" selects an event titled "Meeting" |
| EventViews.FilterIdempotent | app/src/main/java/cl/lte/ae1_abpro/MainActivity.kt:52-54 | filtering the filtered view with the same text changes nothing |
| EventViews.FilterAppend | app/src/main/java/cl/lte/ae1_abpro/MainActivity.kt:52-54 | filtering a concatenation is the concatenation of the filtered parts |
| EventViews.InsertByFechaPermutation | app/src/main/java/cl/lte/ae1_abpro/MainActivity.kt:59 | inserting adds exactly the inserted event and keeps every other one |
| EventViews.ConsSorted | app/src/main/java/cl/lte/ae1_abpro/MainActivity.kt:59 | a head no later than every date of a sorted tail gives a sorted list |
| EventViews.InsertByFechaSorted | app/src/main/java/cl/lte/ae1_abpro/MainActivity.kt:59 | inserting into a date-sorted list keeps it sorted |
| EventViews.SortByFechaSortedPermutation | app/src/main/java/cl/lte/ae1_abpro/MainActivity.kt:59 | the sorted view is non-decreasing by date under compareTo and is a permutation of the list |
| EventViews.WithFechaElements | app/src/main/java/cl/lte/ae1_abpro/MainActivity.kt:59 | the events selected for a date are events of the list with that date |
| EventViews.InsertByFechaWithFecha | app/src/main/java/cl/lte/ae1_abpro/MainActivity.kt:59 | an inserted event goes before every already-sorted event with its own date |
| EventViews.SortByFechaStable | app/src/main/java/cl/lte/ae1_abpro/MainActivity.kt:59 | stability: for every date, the events with that date appear in the sorted view in insertion order |
| EventViews.HeadDateIsLeast | app/src/main/java/cl/lte/ae1_abpro/MainActivity.kt:59 | in a date-sorted list every date that occurs is at least the first event's |
| EventViews.SortedSameDateOrderEqual | app/src/main/java/cl/lte/ae1_abpro/MainActivity.kt:59 | two date-sorted lists that agree on the events per date, in order, are equal |
| EventViews.SortByFechaCharacterized | app/src/main/java/cl/lte/ae1_abpro/MainActivity.kt:59 | a list is the sorted view exactly when it is sorted by date and keeps the relative order of equal dates |
| EventViews.JoinBlocksStartsWithTitle | app/src/main/java/cl/lte/ae1_abpro/MainActivity.kt:98-99 | the joined text of a non-empty list starts with the `Título: ` label |
| EventViews.Render | app/src/main/java/cl/lte/ae1_abpro/MainActivity.kt:95-101 | the shown text is "No hay eventos que coincidan." exactly when the list is empty, and otherwise starts with the first block's title label |
| EventViews.RenderSingle | app/src/main/java/cl/lte/ae1_abpro/MainActivity.kt:98-99 | one event is shown as its `Título:/Fecha:/Descripción:` block, with null shown as "Sin descripción" |
| EventViews.RenderAppend | app/src/main/java/cl/lte/ae1_abpro/MainActivity.kt:98 | for non-empty lists, the text of a concatenation is the two texts joined by a blank line, so blocks appear in list order |
| MainActivity.OptionalDescripcion | app/src/main/java/cl/lte/ae1_abpro/MainActivity.kt:43 | the description is null exactly when the input is "", and the input verbatim otherwise |
| MainActivity.SaveRejectsEmpty | app/src/main/java/cl/lte/ae1_abpro/MainActivity.kt:42 | an empty title or an empty date leaves the list unchanged |
| MainActivity.SaveAppendsOne | app/src/main/java/cl/lte/ae1_abpro/MainActivity.kt:42-44 | with title and date non-empty (blank text is not empty), the list grows by one, the old list is its prefix, and the new last event carries the id, title, date and description (null for "") |
| MainActivity.SavePreservesPrefix | app/src/main/java/cl/lte/ae1_abpro/MainActivity.kt:44 | saving never reorders or drops stored events |
| MainActivity.SaveKeepsIdsDistinct | app/src/main/java/cl/lte/ae1_abpro/Evento.kt:31 | if the generator returns an id not yet stored, the stored ids stay pairwise distinct |
| MainActivity.EventStore.constructor | app/src/main/java/cl/lte/ae1_abpro/MainActivity.kt:15-29 | the screen starts with an empty list, shown as the no-match message; every stored event has a non-empty title and date |
| MainActivity.EventStore.UpdateEventList | app/src/main/java/cl/lte/ae1_abpro/MainActivity.kt:93-104 | the list view shows the rendering of the given events; the stored list is untouched; every stored event keeps a non-empty title and date |
| MainActivity.EventStore.SaveClicked | app/src/main/java/cl/lte/ae1_abpro/MainActivity.kt:37-48 | the list becomes the save transition of the old list, the view is refreshed only when an event was added, and all stored events keep non-empty title and date |
| MainActivity.EventStore.FilterClicked | app/src/main/java/cl/lte/ae1_abpro/MainActivity.kt:50-56 | the view shows the filtered list; the stored list is unchanged; every stored event keeps a non-empty title and date |
| MainActivity.EventStore.SortClicked | app/src/main/java/cl/lte/ae1_abpro/MainActivity.kt:58-61 | the view shows the date-sorted list; the stored list keeps its insertion order; every stored event keeps a non-empty title and date |
| MainActivity.EventStore.ClearClicked | app/src/main/java/cl/lte/ae1_abpro/MainActivity.kt:63-66 | the view shows the full list, the same as filtering with ""; the stored list is unchanged; every stored event keeps a non-empty title and date |

## Left out

- Android lifecycle and UI plumbing: `onCreate` apart from its initial rendering, edge-to-edge display, view binding, the window-insets listener, `finish()` and clearing the text fields (`limpiarCampos`, and clearing the filter field on clear). These are platform glue with no effect on the list.
- The date picker dialog and seeding it from `Calendar.getInstance()`. These depend on the clock and the UI. Only the format expression is modelled.
- `IdGenerator.generateId()`. It is a Java class that is not part of this model, so its result is the parameter `newId`. Uniqueness of ids is only assumed, in `SaveKeepsIdsDistinct`.
- Strings.CharEqualsIgnoreCaseIsLower: case mapping covers ASCII letters only. Kotlin's full Unicode `uppercaseChar`/`lowercaseChar` is not modelled, so every filter result is stated relative to this ASCII fold.
- Strings.LexLeTotal: characters are Unicode scalar values, while Kotlin compares UTF-16 code units. The order differs for strings that mix supplementary characters with characters U+E000–U+FFFF.
- DateFormat.FormatDateShape: digits are ASCII. Locale-specific digits that `String.format` may use under some default locales are not modelled.
- The sort algorithm itself. Kotlin's `sortedBy` uses the platform's stable sort; the model uses insertion sort. `SortByFechaCharacterized` shows that every stable sort gives the same list.
- `SaveSortClearScenario` is a client of the class contracts. It models no source line and has no row.
