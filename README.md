# Course list and course edit pages — a Dafny model

This project models the two pieces of logic in a small course-management web
client. Everything else in the client is rendering and HTTP.

- **The course list page** (`src/pages/List.tsx`). It holds the courses, a
  search text, a teacher filter and the current page. From these it derives:
  - the filtered list (case-insensitive name search, plus an exact teacher
    match when a teacher is selected);
  - the page count (3 courses per page, rounded up);
  - the courses of the current page;
  - the distinct teachers offered in the filter.

  Its events are: typing a search, choosing a teacher, clicking a page button,
  and deleting a course. A delete asks for confirmation and then sends a
  request. On success it removes the course locally and clamps the page.
- **The course edit page** (`src/pages/Edit.tsx`). It holds a draft course and
  a loading flag. Each input event replaces one field of the draft. Submitting
  runs an ordered validation: name, then credit, then teacher. Only a valid
  draft is sent as an update. The loading flag is set while the update is in
  flight and dropped when it settles, whatever the outcome.

Layout:

- `text.dfy` (module `Text`): the string operations the pages use. These are
  ECMAScript `trim`, `toLowerCase` and `includes`.
- `sequences.dfy` (module `Sequences`): the array operations. These are
  `filter`, `slice` (negative bounds included) and `[...new Set(xs)]`.
- `courses.dfy` (module `Courses`): the `Course` record both pages share, and
  the outcome of a request.
- `course_list.dfy` (module `CourseList`): the derived view as functions, with
  lemmas about them. The page state is the class `ListPage`, whose methods are
  the event handlers.
- `course_edit.dfy` (module `CourseEdit`): `Validate` and the field update as
  functions, with lemmas. The form state is the class `EditForm`.

Requests and dialogs are inputs to the methods. A request's result is an
`Outcome` (`Succeeded` or `Failed`) or an `Option` response body. The
confirmation dialog's answer is a `bool`. A navigation back to the list is a
`bool` result.

Two behaviours of the code that a reader might not expect:

- After a delete, the page is clamped against the page count of the
  **unfiltered** remaining list (`src/pages/List.tsx:54-56`). With a filter
  active, the view can therefore stay on a page that shows nothing while
  matching courses remain (`CourseList.ClampIgnoresFilter`). Without a filter
  the clamped page always shows a course while one remains
  (`CourseList.ClampShowsItemsWithoutFilter`).
- The edit page checks only three things: a trimmed name of at least 3, a
  credit greater than 0, and a trimmed teacher of at least 3. Lengths are
  JavaScript string lengths, which count UTF-16 code units. The edit page sets
  no maximum name length or credit and does not require a category, although
  the add page does require one (`src/pages/Add.tsx:76-78`).

## Model

| member | source | states |
|---|---|---|
| `Text.TrimStart` | src/pages/Edit.tsx:56 | `trim`'s start: the result is a suffix, only white space is dropped, and it does not start with white space |
| `Text.TrimEnd` | src/pages/Edit.tsx:66 | `trim`'s end: the result is a prefix, only white space is dropped, and it does not end with white space |
| `Text.Trim` | src/pages/Edit.tsx:56 | `trim`: the result is a contiguous piece of the input with only white space on both sides of it, and it neither starts nor ends with white space |
| `Text.TrimStartThenEnd` | src/pages/Edit.tsx:56 | trimming the start and then the end leaves the piece of the input that starts after the leading white space |
| `Text.Utf16Length` | src/pages/Edit.tsx:56 | JavaScript's `length`: between one and two code units per character, one for a character in the Basic Multilingual Plane and two for one above U+FFFF, exactly one per character when all lie in that plane, and 0 exactly for the empty string |
| `Text.Utf16LengthConcat` | src/pages/Edit.tsx:56 | the `length` of a concatenation is the sum of the lengths, so with the one-character case it fixes the length of every string |
| `Text.TrimOfBlank` | src/pages/Edit.tsx:56 | a string of white space only trims to the empty string |
| `Text.TrimOfTight` | src/pages/Edit.tsx:56 | a string without white space at its ends trims to itself |
| `Text.LowerChar` | src/pages/List.tsx:67 | `toLowerCase` on one character: a capital A–Z becomes the small letter at the same offset in a–z; every other character is kept |
| `Text.Lower` | src/pages/List.tsx:67 | `toLowerCase` keeps the length, turns each capital A–Z into the small letter at the same offset, leaves no capital, and keeps every other character |
| `Text.LowerIdempotent` | src/pages/List.tsx:67 | lower-casing twice is lower-casing once |
| `Text.Contains` | src/pages/List.tsx:67 | `includes`: the empty string and every prefix occur in a string, and nothing longer than the string does |
| `Text.ContainsIgnoringCase` | src/pages/List.tsx:67 | the name search: the empty search matches every name, and a name matches a search that differs from it only in case |
| `Text.SearchIgnoresCase` | src/pages/List.tsx:67 | the search gives the same answer when either string is lower-cased first |
| `Sequences.Filter` | src/pages/List.tsx:65-71 | `filter` never returns more elements than it was given |
| `Sequences.FilterMembers` | src/pages/List.tsx:65-71 | `filter` keeps an element exactly when it is in the input and passes the test |
| `Sequences.FilterCounts` | src/pages/List.tsx:65-71 | `filter` keeps every passing element as often as it occurs, and no other element |
| `Sequences.FilterIsSubsequence` | src/pages/List.tsx:65-71 | `filter`'s result is a subsequence of the input: relative order is preserved |
| `Sequences.FilterKeepsAll` | src/pages/List.tsx:65-71 | filtering with a test every element passes returns the input unchanged |
| `Sequences.FilterCons` | src/pages/List.tsx:47-49 | one filter step: the head is kept exactly when it passes, and the rest is filtered |
| `Sequences.SliceBound` | src/pages/List.tsx:78-81 | a `slice` bound lies in [0, length], is unchanged when already inside it, and becomes the length when past the end |
| `Sequences.Slice` | src/pages/List.tsx:78-81 | `slice` returns no more elements than the array holds, only elements of the array, exactly `s[start..end]` when the bounds lie in order inside it, the rest from `start` when `end` is past the end (the last partial page), and nothing when `end` does not exceed a non-negative `start` |
| `Sequences.Dedup` | src/pages/List.tsx:83-85 | spreading a `Set` gives no element twice, and it gives exactly the elements of the input |
| `CourseList.Matches` | src/pages/List.tsx:66-70 | a course that matches has the selected teacher, unless none is selected; with no search text and no teacher selected, every course matches |
| `CourseList.FilteredCoursesSpec` | src/pages/List.tsx:65-71 | the contract of `FilteredCourses`: a course is shown iff it is in the list, its lower-cased name contains the lower-cased search, and the filter is empty or equals its teacher; multiplicities and order are kept |
| `CourseList.NoFilterShowsAll` | src/pages/List.tsx:65-71 | with an empty search and no teacher selected, the filtered list is the whole list |
| `CourseList.PageCount` | src/pages/List.tsx:73-75 | `Math.ceil(n / 3)`: 0 exactly when n is 0, else (r-1)*3 < n <= r*3 |
| `CourseList.PageItems` | src/pages/List.tsx:76-81 | the current page has at most 3 items, all from the filtered list; it is the window [(p-1)*3, min(p*3, n)) on an existing page and empty iff p exceeds the page count (for p >= 1) |
| `CourseList.ShownCoursesMatch` | src/pages/List.tsx:76-81 | every course on the current page is in the list and matches the search and the teacher filter |
| `CourseList.SevenCoursesScenario` | src/pages/List.tsx:73-81 | seven courses make three pages, the third showing one; deleting it from page 3 moves to page 2 |
| `CourseList.PagesArePrefix` | src/pages/List.tsx:188-194 | pages 1..k together are the first min(3k, n) filtered courses |
| `CourseList.PagesReassemble` | src/pages/List.tsx:188-194 | the pages of all page buttons, one after the other, are exactly the filtered list |
| `CourseList.TeacherNames` | src/pages/List.tsx:84 | `courses.map(c => c.teacher)` gives, at each position, the teacher of the course at that position, and a name occurs iff some course has that teacher |
| `CourseList.Teachers` | src/pages/List.tsx:83-85 | the teacher options have no duplicates, and a name is offered iff some course of the unfiltered list has that teacher |
| `CourseList.TeacherOnlyFilter` | src/pages/List.tsx:66-70 | with no search text, a course passes iff no teacher is selected or its teacher is the selected one |
| `CourseList.RemainingSpec` | src/pages/List.tsx:47-49 | the contract of `Remaining`: the local delete keeps exactly the courses with another id, each as often as before, in their original order |
| `CourseList.ClampPage` | src/pages/List.tsx:54-59 | after a delete, the page stays if it is within ceil(remaining/3), else it becomes that page count, or 1 when it is 0; it stays >= 1 |
| `CourseList.ClampShowsItemsWithoutFilter` | src/pages/List.tsx:54-59 | without search text or teacher filter, the clamped page is not empty while a course remains |
| `CourseList.ExampleBefore` | src/pages/List.tsx:65-71 | in the example, selecting "B" keeps B's four courses |
| `CourseList.ExampleDelete` | src/pages/List.tsx:47-49 | in the example, deleting id 4 keeps the other four courses in order |
| `CourseList.ExampleAfter` | src/pages/List.tsx:65-71 | in the example, after the delete, selecting "B" keeps B's three remaining courses |
| `CourseList.ClampIgnoresFilter` | src/pages/List.tsx:54-57 | with a teacher filter active, a delete can leave the view on page 2, which shows nothing while matching courses remain, because the clamp counts the unfiltered list |
| `CourseList.ListPage.constructor` | src/pages/List.tsx:16-19 | on mount: no courses, empty search and teacher filter, page 1 |
| `CourseList.ListPage.Filtered` | src/pages/List.tsx:65-71 | the filtered list holds exactly the courses of the list that match the search and the teacher filter, each as often as in the list, in their original order |
| `CourseList.ListPage.TotalPages` | src/pages/List.tsx:73-75 | no page exactly when nothing matches, else the fewest pages of 3 that hold the filtered list |
| `CourseList.ListPage.CurrentCourses` | src/pages/List.tsx:76-81 | at most 3 rows, each a matching course of the list; on an existing page they are the window [(p-1)*3, min(p*3, n)) of the filtered list; for a page >= 1, no rows exactly when the page is past the last one |
| `CourseList.ListPage.TeacherOptions` | src/pages/List.tsx:83-85 | no teacher twice, and a teacher is offered iff some course of the unfiltered list has it |
| `CourseList.ListPage.FetchCourses` | src/pages/List.tsx:25-34 | a response replaces the list; a failed fetch changes nothing; the filters and page are untouched |
| `CourseList.ListPage.SetSearch` | src/pages/List.tsx:98-101 | the search text is replaced and the page reset to 1; nothing else changes |
| `CourseList.ListPage.SetTeacherFilter` | src/pages/List.tsx:107-110 | the teacher filter is replaced and the page reset to 1; nothing else changes |
| `CourseList.ListPage.ClickPage` | src/pages/List.tsx:188-195 | clicking button `index` (rendered only for index < totalPages) sets page index+1, which shows at least one course |
| `CourseList.ListPage.HandleDelete` | src/pages/List.tsx:40-63 | a declined or failed delete changes nothing; a successful one keeps the courses with another id and clamps the page against the unfiltered remaining count; search, filter and page >= 1 are kept |
| `CourseEdit.Validate` | src/pages/Edit.tsx:55-72 | lengths in UTF-16 code units: accepted iff trimmed name >= 3, credit > 0 and trimmed teacher >= 3; otherwise the first failing check, in the order name, credit, teacher, is reported |
| `CourseEdit.FirstFailureDecides` | src/pages/Edit.tsx:56-69 | once a check fails, the fields of later checks do not change the verdict |
| `CourseEdit.ValidateIgnoresCategoryAndId` | src/pages/Edit.tsx:55-72 | changing only the category or the id never changes the verdict |
| `CourseEdit.ThreeCharacterNamePasses` | src/pages/Edit.tsx:56-58 | a name of exactly three characters with no white space at its ends passes the name check, although the message says "more than 3" |
| `CourseEdit.AstralNamePasses` | src/pages/Edit.tsx:56-58 | a name of two characters outside the Basic Multilingual Plane has length 4 and passes the name check |
| `CourseEdit.TwoLetterNameFails` | src/pages/Edit.tsx:56-58 | the two-letter name "ab" is rejected by the first check |
| `CourseEdit.BlankNameFails` | src/pages/Edit.tsx:56-58 | a name of white space only is rejected by the first check |
| `CourseEdit.BlankTeacherFails` | src/pages/Edit.tsx:66-68 | a teacher of white space only is rejected once name and credit pass |
| `CourseEdit.Assign` | src/pages/Edit.tsx:44-53 | an input event replaces only its own field, with the number conversion for the credit input and the text as given otherwise; the id never changes |
| `CourseEdit.CategoryChangeKeepsVerdict` | src/pages/Edit.tsx:44-72 | choosing a category never changes what validation reports |
| `CourseEdit.LastInputWins` | src/pages/Edit.tsx:44-53 | two inputs to the same field leave the draft as the second one alone would |
| `CourseEdit.EditForm.constructor` | src/pages/Edit.tsx:18-26 | on mount: the empty draft, not loading, no update in flight |
| `CourseEdit.EditForm.FetchCourse` | src/pages/Edit.tsx:28-38 | a response becomes the draft; a failure leads back to the list and keeps the draft |
| `CourseEdit.EditForm.HandleChange` | src/pages/Edit.tsx:44-53 | the draft becomes `Assign` of the old draft; the loading flag and the request in flight are untouched |
| `CourseEdit.EditForm.HandleSubmit` | src/pages/Edit.tsx:74-88 | the verdict is the draft's validation; a rejected draft sends nothing and changes nothing; an accepted one sets loading and sends the draft; only reachable while not loading |
| `CourseEdit.EditForm.SettleUpdate` | src/pages/Edit.tsx:89-98 | when the update settles, loading drops and the draft is kept, on success and on failure; only success leads back to the list |

## Left out

- `src/pages/Add.tsx` and `src/pages/Auth.Page.tsx`: their validation is configuration handed to a form library whose behaviour (coercion, trimming, `min` on string input) is not part of this model. The rest of these pages is requests and navigation.
- HTTP requests (the list GET, the DELETE, the course GET and the PUT): each is an input to the method that awaits it. Either an `Outcome` or an `Option` response body stands for it. URLs and bodies are not modelled, except that the update sends the draft (`EditForm.pending`).
- Toast notifications, the one-second `setTimeout` before redirecting, and `navigate` are left out. A navigation back to the list is a `bool` result.
- `window.confirm` is the `confirmed` argument of `HandleDelete`.
- Rendering: the JSX, the "no data" row and the styling are left out. The page buttons appear only as the precondition of `ClickPage`.
- React's asynchronous state updates and stale closures are left out. Each event handler runs as one atomic step on the current state. A second delete or fetch interleaving with a pending one is not modelled.
- `Text.LowerChar`: only ASCII A–Z are folded. Unicode case mapping (for example, Vietnamese capitals with diacritics) is not modelled.
- `CourseEdit.Assign`: `Number(value)` is the `toNumber` argument. Credits are integers, so NaN and fractional credits are not modelled. A NaN credit would pass the `credit <= 0` check.
- `CourseList.Teachers`: the options come in first-occurrence order, which `Sequences.Dedup` computes. No lemma states that order.
