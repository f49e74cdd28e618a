/** The course list page: the derived view (filter, page count, current page,
    teacher options) as functions of the page state, and the page's event
    handlers as methods of a class holding that state. */
module CourseList {
  import opened Text
  import opened Sequences
  import opened Courses

  /** Fixed page size of the list. */
  const ItemsPerPage: nat := 3

  function Min(a: int, b: int): int { if a <= b then a else b }

  function Max(a: int, b: int): int { if a >= b then a else b }

  /** The list's filter test: the name contains the search text ignoring case,
      and the teacher equals the selected one unless none is selected. */
  predicate Matches(c: Course, search: string, teacherFilter: string): (b: bool)
    ensures b ==> teacherFilter == "" || c.teacher == teacherFilter
    ensures search == "" && teacherFilter == "" ==> b
  {
    ContainsIgnoringCase(c.name, search) && (teacherFilter == "" || c.teacher == teacherFilter)
  }

  function Query(search: string, teacherFilter: string): Course -> bool
  {
    (c: Course) => Matches(c, search, teacherFilter)
  }

  /** `courses.filter(...)` with the list's filter test. */
  function FilteredCourses(courses: seq<Course>, search: string, teacherFilter: string): seq<Course>
  {
    Filter(courses, Query(search, teacherFilter))
  }

  /** The courses the table can show: exactly those that match, each as often
      as in `courses`, in their original order. */
  lemma FilteredCoursesSpec(courses: seq<Course>, search: string, teacherFilter: string)
    ensures var r := FilteredCourses(courses, search, teacherFilter);
      && (forall c :: c in r <==> c in courses && Matches(c, search, teacherFilter))
      && (forall c :: multiset(r)[c] == if Matches(c, search, teacherFilter) then multiset(courses)[c] else 0)
      && IsSubsequence(r, courses)
  {
    FilterMembers(courses, Query(search, teacherFilter));
    FilterCounts(courses, Query(search, teacherFilter));
    FilterIsSubsequence(courses, Query(search, teacherFilter));
  }

  /** With no search text and no teacher selected, every course is shown. */
  lemma {:induction false} NoFilterShowsAll(courses: seq<Course>)
    ensures FilteredCourses(courses, "", "") == courses
  {
    FilterKeepsAll(courses, Query("", ""));
  }

  /** Math.ceil(n / ItemsPerPage): the fewest pages that hold `n` items. */
  function PageCount(n: nat): (r: nat)
    ensures r == 0 <==> n == 0
    ensures n > 0 ==> (r - 1) * ItemsPerPage < n <= r * ItemsPerPage
  {
    (n + ItemsPerPage - 1) / ItemsPerPage
  }

  /** The items of page `page` (counted from 1), as `slice` takes them from
      the filtered list: at most ItemsPerPage of them, the window starting at
      (page - 1) * ItemsPerPage on an existing page, nothing past the last one. */
  function PageItems(filtered: seq<Course>, page: int): (r: seq<Course>)
    ensures |r| <= ItemsPerPage
    ensures forall c :: c in r ==> c in filtered
    ensures page >= 1 ==> (r == [] <==> page > PageCount(|filtered|))
    ensures 1 <= page <= PageCount(|filtered|) ==>
      r == filtered[(page - 1) * ItemsPerPage .. Min(page * ItemsPerPage, |filtered|)]
  {
    var start := (page - 1) * ItemsPerPage;
    Slice(filtered, start, start + ItemsPerPage)
  }

  /** Every course the table shows is a course of the list that matches the
      search text and the teacher filter. */
  lemma ShownCoursesMatch(courses: seq<Course>, search: string, teacherFilter: string, page: int)
    ensures forall c :: c in PageItems(FilteredCourses(courses, search, teacherFilter), page) ==>
      c in courses && Matches(c, search, teacherFilter)
  {
    FilteredCoursesSpec(courses, search, teacherFilter);
  }

  /** Seven matching courses make three pages, the third holding one course;
      deleting that course from page 3 moves the view to page 2. */
  lemma SevenCoursesScenario(filtered: seq<Course>)
    requires |filtered| == 7
    ensures PageCount(|filtered|) == 3
    ensures PageItems(filtered, 3) == [filtered[6]]
    ensures ClampPage(3, 6) == 2
  {
  }

  /** Pages 1 to k, one after the other. */
  function Pages(filtered: seq<Course>, k: nat): seq<Course>
  {
    if k == 0 then [] else Pages(filtered, k - 1) + PageItems(filtered, k)
  }

  /** Pages 1 to k together are the first k * ItemsPerPage filtered items. */
  lemma {:induction false} PagesArePrefix(filtered: seq<Course>, k: nat)
    ensures Pages(filtered, k) == filtered[..Min(k * ItemsPerPage, |filtered|)]
  {
    if k > 0 {
      PagesArePrefix(filtered, k - 1);
    }
  }

  /** The page buttons together show the whole filtered list, in order. */
  lemma PagesReassemble(filtered: seq<Course>)
    ensures Pages(filtered, PageCount(|filtered|)) == filtered
  {
    PagesArePrefix(filtered, PageCount(|filtered|));
  }

  /** `courses.map(c => c.teacher)`: one name per course, and a name occurs
      exactly when some course has that teacher. */
  function TeacherNames(courses: seq<Course>): (r: seq<string>)
    ensures |r| == |courses|
    ensures forall i :: 0 <= i < |courses| ==> r[i] == courses[i].teacher
    ensures forall t :: t in r <==> exists c :: c in courses && c.teacher == t
  {
    var names := seq(|courses|, i requires 0 <= i < |courses| => courses[i].teacher);
    assert forall t :: t in names <==> exists c :: c in courses && c.teacher == t by {
      forall t ensures t in names <==> exists c :: c in courses && c.teacher == t {
        if t in names {
          var i :| 0 <= i < |names| && names[i] == t;
          assert courses[i] in courses;
        }
        if exists c :: c in courses && c.teacher == t {
          var c :| c in courses && c.teacher == t;
          var i :| 0 <= i < |courses| && courses[i] == c;
          assert names[i] == t;
        }
      }
    }
    names
  }

  /** The teacher options: no name twice, and a name is offered exactly when
      some course of the unfiltered list has that teacher. */
  function Teachers(courses: seq<Course>): (r: seq<string>)
    ensures Distinct(r)
    ensures forall t :: t in r <==> exists c :: c in courses && c.teacher == t
  {
    Dedup(TeacherNames(courses))
  }

  function OtherId(id: int): Course -> bool
  {
    (c: Course) => c.id != id
  }

  /** `courses.filter(course => course.id !== id)`. */
  function Remaining(courses: seq<Course>, id: int): seq<Course>
  {
    Filter(courses, OtherId(id))
  }

  /** The list after deleting `id` locally: every course with another id, each
      as often as before, in the original order. */
  lemma RemainingSpec(courses: seq<Course>, id: int)
    ensures var r := Remaining(courses, id);
      && (forall c :: c in r <==> c in courses && c.id != id)
      && (forall c :: multiset(r)[c] == if c.id != id then multiset(courses)[c] else 0)
      && IsSubsequence(r, courses)
  {
    FilterMembers(courses, OtherId(id));
    FilterCounts(courses, OtherId(id));
    FilterIsSubsequence(courses, OtherId(id));
  }

  /** The page after a delete: kept if the `remaining` courses still fill it
      (counted without the filter), else the last page, or 1 when nothing is
      left. */
  function ClampPage(page: int, remaining: nat): (r: int)
    ensures page >= 1 ==> r >= 1
    ensures page <= PageCount(remaining) ==> r == page
    ensures page > PageCount(remaining) ==> r == Max(PageCount(remaining), 1)
  {
    var total := PageCount(remaining);
    if page > total then (if total == 0 then 1 else total) else page
  }

  /** Without a search text or a teacher filter, the clamped page shows
      something whenever some course is left. */
  lemma ClampShowsItemsWithoutFilter(courses: seq<Course>, page: int)
    requires page >= 1
    ensures courses != [] ==> PageItems(FilteredCourses(courses, "", ""), ClampPage(page, |courses|)) != []
  {
    NoFilterShowsAll(courses);
  }

  /** Without a search text, the filter is the teacher selection alone. */
  lemma TeacherOnlyFilter(c: Course, teacher: string)
    ensures Matches(c, "", teacher) <==> teacher == "" || c.teacher == teacher
  {
  }

  /** The filters of the example below, one step at a time. */
  lemma ExampleBefore(b1: Course, b2: Course, b3: Course, b4: Course, a5: Course)
    requires b1.teacher == b2.teacher == b3.teacher == b4.teacher == "B" && a5.teacher == "A"
    ensures Filter([b1, b2, b3, b4, a5], Query("", "B")) == [b1, b2, b3, b4]
  {
    var q := Query("", "B");
    TeacherOnlyFilter(b1, "B"); TeacherOnlyFilter(b2, "B"); TeacherOnlyFilter(b3, "B");
    TeacherOnlyFilter(b4, "B"); TeacherOnlyFilter(a5, "B");
    FilterCons(a5, [], q);
    FilterCons(b4, [a5], q);
    FilterCons(b3, [b4, a5], q);
    FilterCons(b2, [b3, b4, a5], q);
    FilterCons(b1, [b2, b3, b4, a5], q);
  }

  lemma ExampleDelete(b1: Course, b2: Course, b3: Course, b4: Course, a5: Course)
    requires b4.id == 4 && b1.id != 4 && b2.id != 4 && b3.id != 4 && a5.id != 4
    ensures Filter([b1, b2, b3, b4, a5], OtherId(4)) == [b1, b2, b3, a5]
  {
    var keep := OtherId(4);
    FilterCons(a5, [], keep);
    FilterCons(b4, [a5], keep);
    FilterCons(b3, [b4, a5], keep);
    FilterCons(b2, [b3, b4, a5], keep);
    FilterCons(b1, [b2, b3, b4, a5], keep);
  }

  lemma ExampleAfter(b1: Course, b2: Course, b3: Course, a5: Course)
    requires b1.teacher == b2.teacher == b3.teacher == "B" && a5.teacher == "A"
    ensures Filter([b1, b2, b3, a5], Query("", "B")) == [b1, b2, b3]
  {
    var q := Query("", "B");
    TeacherOnlyFilter(b1, "B"); TeacherOnlyFilter(b2, "B"); TeacherOnlyFilter(b3, "B");
    TeacherOnlyFilter(a5, "B");
    FilterCons(a5, [], q);
    FilterCons(b3, [a5], q);
    FilterCons(b2, [b3, a5], q);
    FilterCons(b1, [b2, b3, a5], q);
  }

  /** Because the clamp counts the unfiltered list, a filtered view can be left
      on an empty page although matching courses remain: with teacher "B"
      selected, page 2 shows the fourth of B's courses; deleting it keeps page 2
      (four courses still make two pages) while B's three remaining courses fit
      on page 1. */
  lemma ClampIgnoresFilter(b1: Course, b2: Course, b3: Course, b4: Course, a5: Course)
    requires b1.teacher == b2.teacher == b3.teacher == b4.teacher == "B" && a5.teacher == "A"
    requires b4.id == 4 && b1.id != 4 && b2.id != 4 && b3.id != 4 && a5.id != 4
    ensures var after := Remaining([b1, b2, b3, b4, a5], 4);
      PageItems(FilteredCourses([b1, b2, b3, b4, a5], "", "B"), 2) == [b4]
      && ClampPage(2, |after|) == 2
      && FilteredCourses(after, "", "B") != []
      && PageItems(FilteredCourses(after, "", "B"), 2) == []
  {
    ExampleBefore(b1, b2, b3, b4, a5);
    ExampleDelete(b1, b2, b3, b4, a5);
    ExampleAfter(b1, b2, b3, a5);
    assert PageItems([b1, b2, b3, b4], 2) == [b1, b2, b3, b4][3..4];
  }

  /** The page state of the list view. `Valid` is the invariant every reachable
      state keeps: the current page is at least 1. */
  class ListPage {
    var courses: seq<Course>
    var search: string
    var teacherFilter: string
    var currentPage: int

    ghost predicate Valid()
      reads this
    {
      currentPage >= 1
    }

    /** The state on mount: no courses yet, no filter, page 1. */
    constructor ()
      ensures Valid()
      ensures courses == [] && search == "" && teacherFilter == "" && currentPage == 1
    {
      courses := [];
      search := "";
      teacherFilter := "";
      currentPage := 1;
    }

    /** The filtered list: the courses that match the search text and the
        teacher filter, in their original order. */
    function Filtered(): (r: seq<Course>)
      reads this
      ensures forall c :: c in r <==> c in courses && Matches(c, search, teacherFilter)
      ensures forall c :: multiset(r)[c] == if Matches(c, search, teacherFilter) then multiset(courses)[c] else 0
      ensures IsSubsequence(r, courses)
    {
      FilteredCoursesSpec(courses, search, teacherFilter);
      FilteredCourses(courses, search, teacherFilter)
    }

    /** The number of page buttons: none exactly when nothing matches, else
        the fewest pages of ItemsPerPage that hold the filtered list. */
    function TotalPages(): (r: nat)
      reads this
      ensures r == 0 <==> Filtered() == []
      ensures Filtered() != [] ==> (r - 1) * ItemsPerPage < |Filtered()| <= r * ItemsPerPage
    {
      PageCount(|Filtered()|)
    }

    /** The table rows: at most ItemsPerPage matching courses, none exactly
        when the current page is past the last one. */
    function CurrentCourses(): (r: seq<Course>)
      reads this
      ensures |r| <= ItemsPerPage
      ensures forall c :: c in r ==> c in courses && Matches(c, search, teacherFilter)
      ensures currentPage >= 1 ==> (r == [] <==> currentPage > TotalPages())
      ensures 1 <= currentPage <= TotalPages() ==>
        r == Filtered()[(currentPage - 1) * ItemsPerPage .. Min(currentPage * ItemsPerPage, |Filtered()|)]
    {
      PageItems(Filtered(), currentPage)
    }

    /** The teacher select's options: each teacher of the unfiltered list,
        once. */
    function TeacherOptions(): (r: seq<string>)
      reads this
      ensures Distinct(r)
      ensures forall t :: t in r <==> exists c :: c in courses && c.teacher == t
    {
      Teachers(courses)
    }

    /** The initial fetch: a response replaces the list, a failed request
        leaves everything as it was. */
    method FetchCourses(response: Option<seq<Course>>)
      requires Valid()
      modifies this
      ensures Valid()
      ensures courses == if response.Some? then response.value else old(courses)
      ensures search == old(search) && teacherFilter == old(teacherFilter) && currentPage == old(currentPage)
    {
      if response.Some? {
        courses := response.value;
      }
    }

    /** Typing in the search box: new search text, back to page 1. */
    method SetSearch(text: string)
      requires Valid()
      modifies this
      ensures Valid()
      ensures search == text && currentPage == 1
      ensures courses == old(courses) && teacherFilter == old(teacherFilter)
    {
      search := text;
      currentPage := 1;
    }

    /** Choosing a teacher ("" for all): new filter, back to page 1. */
    method SetTeacherFilter(teacher: string)
      requires Valid()
      modifies this
      ensures Valid()
      ensures teacherFilter == teacher && currentPage == 1
      ensures courses == old(courses) && search == old(search)
    {
      teacherFilter := teacher;
      currentPage := 1;
    }

    /** Clicking the page button at `index`; buttons exist only for the pages
        of the filtered list, so the page clicked always shows something. */
    method ClickPage(index: nat)
      requires Valid() && index < TotalPages()
      modifies this
      ensures Valid()
      ensures currentPage == index + 1
      ensures courses == old(courses) && search == old(search) && teacherFilter == old(teacherFilter)
      ensures CurrentCourses() != []
    {
      currentPage := index + 1;
    }

    /** The delete button for `id`: `confirmed` is the answer to the
        confirmation dialog and `outcome` that of the DELETE request. Only a
        confirmed, successful delete removes the course locally and clamps the
        page against the remaining unfiltered list. */
    method HandleDelete(id: int, confirmed: bool, outcome: Outcome)
      requires Valid()
      modifies this
      ensures Valid()
      ensures search == old(search) && teacherFilter == old(teacherFilter)
      ensures confirmed && outcome == Succeeded ==>
        courses == Remaining(old(courses), id)
        && currentPage == ClampPage(old(currentPage), |courses|)
        && currentPage <= Max(PageCount(|courses|), 1)
      ensures !(confirmed && outcome == Succeeded) ==>
        courses == old(courses) && currentPage == old(currentPage)
    {
      if !confirmed {
        return;
      }
      if outcome == Failed {
        return;
      }
      var updated := Remaining(courses, id);
      courses := updated;
      var newTotalPages := PageCount(|updated|);
      if currentPage > newTotalPages {
        currentPage := if newTotalPages == 0 then 1 else newTotalPages;
      }
    }
  }
}
