/**
 * The project list: it sorts the array of projects it is given in place,
 * newest first, and then pages through it as the blog list does.
 */
module ProjectPosts {
  import Pagination
  import Paginator
  import Wrappers

  /** A project's metadata; its date is the time stamp that `getTime()` gives. */
  datatype ProjectPost = ProjectPost(slug: string, title: string, description: string, date: int)

  /** Dates never increase along the list. */
  predicate NewestFirst(s: seq<ProjectPost>) {
    forall i, j :: 0 <= i < j < |s| ==> s[i].date >= s[j].date
  }

  /**
   * Halfway through inserting the item that was at `i`: it now sits at
   * `j`; the others in `0..i` are newest first, and the items it has
   * passed are all older than it.
   */
  predicate Inserting(s: seq<ProjectPost>, i: nat, j: nat)
    requires j <= i < |s|
  {
    && (forall p, q :: 0 <= p < q <= i && p != j && q != j ==> s[p].date >= s[q].date)
    && (forall q :: j < q <= i ==> s[j].date > s[q].date)
  }

  lemma {:induction false} InsertStart(s: seq<ProjectPost>, i: nat)
    requires i < |s| && NewestFirst(s[..i])
    ensures Inserting(s, i, i)
  {
    assert forall p :: 0 <= p < i ==> s[..i][p] == s[p];
  }

  /** Swapping the item with the older one before it moves it one place on. */
  lemma {:induction false} InsertSwap(s: seq<ProjectPost>, i: nat, j: nat)
    requires 0 < j <= i < |s| && Inserting(s, i, j) && s[j - 1].date < s[j].date
    ensures Inserting(s[j - 1 := s[j]][j := s[j - 1]], i, j - 1)
  {
  }

  /** Once the item is no newer than the one before it, `0..i` is newest first. */
  lemma {:induction false} InsertDone(s: seq<ProjectPost>, i: nat, j: nat)
    requires j <= i < |s| && Inserting(s, i, j) && (j == 0 || s[j - 1].date >= s[j].date)
    ensures NewestFirst(s[..i + 1])
  {
    forall p, q | 0 <= p < q <= i ensures s[p].date >= s[q].date {
      if 0 < j && p < j - 1 && q == j {
        assert s[p].date >= s[j - 1].date;
      }
    }
  }

  lemma {:induction false} SwapPermutes(s: seq<ProjectPost>, x: nat, y: nat)
    requires x < |s| && y < |s|
    ensures multiset(s[x := s[y]][y := s[x]]) == multiset(s)
  {
  }

  /** A swap inside `0..i` leaves the items of `0..i` the same and the rest in place. */
  lemma {:induction false} SwapKeeps(s: seq<ProjectPost>, i: nat, j: nat)
    requires 0 < j <= i < |s|
    ensures var t := s[j - 1 := s[j]][j := s[j - 1]];
      && multiset(t) == multiset(s)
      && multiset(t[..i + 1]) == multiset(s[..i + 1])
      && t[i + 1..] == s[i + 1..]
  {
    var t := s[j - 1 := s[j]][j := s[j - 1]];
    assert t[..i + 1] == s[..i + 1][j - 1 := s[j]][j := s[j - 1]];
    SwapPermutes(s, j - 1, j);
    SwapPermutes(s[..i + 1], j - 1, j);
  }

  /**
   * `projects.sort((a, b) => b.date - a.date)`: the array is rearranged in
   * place into newest-first order, keeping the same projects.
   */
  method SortNewestFirst(a: array<ProjectPost>)
    modifies a
    ensures NewestFirst(a[..])
    ensures multiset(a[..]) == multiset(old(a[..]))
  {
    var i := 0;
    while i < a.Length
      invariant 0 <= i <= a.Length
      invariant NewestFirst(a[..i])
      invariant multiset(a[..]) == multiset(old(a[..]))
    {
      Insert(a, i);
      i := i + 1;
    }
    assert a[..a.Length] == a[..];
  }

  /** One insertion step: the item at `i` moves back past the older ones before it. */
  method Insert(a: array<ProjectPost>, i: nat)
    requires i < a.Length && NewestFirst(a[..i])
    modifies a
    ensures NewestFirst(a[..i + 1])
    ensures multiset(a[..]) == multiset(old(a[..]))
    ensures multiset(a[..i + 1]) == multiset(old(a[..i + 1]))
    ensures a[i + 1..] == old(a[i + 1..])
  {
    InsertStart(a[..], i);
    var j := i;
    while j > 0 && a[j - 1].date < a[j].date
      invariant 0 <= j <= i
      invariant multiset(a[..]) == multiset(old(a[..]))
      invariant multiset(a[..i + 1]) == multiset(old(a[..i + 1]))
      invariant a[i + 1..] == old(a[i + 1..])
      invariant Inserting(a[..], i, j)
    {
      ghost var before := a[..];
      a[j - 1], a[j] := a[j], a[j - 1];
      assert a[..] == before[j - 1 := before[j]][j := before[j - 1]];
      InsertSwap(before, i, j);
      SwapKeeps(before, i, j);
      j := j - 1;
    }
    InsertDone(a[..], i, j);
  }

  /** One mounted list, with its props and its page state. */
  class ProjectList {
    const projects: array<ProjectPost>
    const numPerPage: nat
    const pagination: bool
    var currentPage: int

    /** The projects are newest first, and the page is reachable, as for the blog list. */
    predicate Valid()
      reads this, projects
    {
      && numPerPage > 0
      && NewestFirst(projects[..])
      && Pagination.InRange(currentPage, Pagination.MaxPage(projects.Length, numPerPage))
      && (!pagination ==> currentPage == 1)
    }

    function MaxPage(): nat
      requires numPerPage > 0
    {
      Pagination.MaxPage(projects.Length, numPerPage)
    }

    /** The projects shown on the current page. */
    function FilteredPosts(): seq<ProjectPost>
      reads this, projects
    {
      Pagination.Window(projects[..], currentPage, numPerPage)
    }

    /** The "work in progress" message is shown when the current page shows nothing. */
    function ShowsEmptyMessage(): bool
      reads this, projects
    {
      FilteredPosts() == []
    }

    /** The label the paginator shows, when it is shown. */
    function PaginatorLabel(): string
      requires Valid()
      reads this, projects
    {
      Paginator.Label(currentPage, MaxPage())
    }

    /** Mounting the list sorts the caller's array itself, not a copy. */
    constructor (projects: array<ProjectPost>, numPerPage: nat, pagination: bool)
      requires numPerPage > 0
      modifies projects
      ensures this.projects == projects && this.numPerPage == numPerPage && this.pagination == pagination
      ensures NewestFirst(projects[..]) && multiset(projects[..]) == multiset(old(projects[..]))
      ensures currentPage == 1
      ensures Valid()
    {
      this.projects := projects;
      this.numPerPage := numPerPage;
      this.pagination := pagination;
      currentPage := 1;
      new;
      SortNewestFirst(projects);
    }

    /** The next button: one page on, but never past the last page. */
    method OnNextPage()
      requires Valid() && pagination
      modifies this
      ensures Valid()
      ensures currentPage == Pagination.NextPage(old(currentPage), MaxPage())
    {
      Pagination.NextPageStep(currentPage, MaxPage());
      currentPage := Pagination.NextPage(currentPage, MaxPage());
    }

    /** The back button: one page back, but never before page 1. */
    method OnPrevPage()
      requires Valid() && pagination
      modifies this
      ensures Valid()
      ensures currentPage == Pagination.PrevPage(old(currentPage))
    {
      Pagination.PrevPageStep(currentPage, MaxPage());
      currentPage := Pagination.PrevPage(currentPage);
    }
  }

  /** An empty page can only mean an empty list: the message shows exactly when there are no projects. */
  lemma {:induction false} EmptyMessageIffNoProjects(l: ProjectList)
    requires l.Valid()
    ensures l.ShowsEmptyMessage() <==> l.projects.Length == 0
  {
    Pagination.WindowNonEmpty(l.projects[..], l.currentPage, l.numPerPage);
  }

  /** The shown projects are projects of the list, newest first. */
  lemma {:induction false} VisibleSorted(l: ProjectList)
    requires l.Valid()
    ensures NewestFirst(l.FilteredPosts())
    ensures forall i :: 0 <= i < |l.FilteredPosts()| ==> l.FilteredPosts()[i] in l.projects[..]
  {
    WindowNewestFirst(l.projects[..], l.currentPage, l.numPerPage);
  }

  /** A window of a newest-first list is a newest-first run of its items. */
  lemma {:induction false} WindowNewestFirst(s: seq<ProjectPost>, page: int, p: nat)
    requires NewestFirst(s) && page >= 1 && p > 0
    ensures NewestFirst(Pagination.Window(s, page, p))
    ensures forall i :: 0 <= i < |Pagination.Window(s, page, p)| ==> Pagination.Window(s, page, p)[i] in s
  {
    var start := (page - 1) * p;
    Pagination.WindowContents(s, page, p);
    RunNewestFirst(s, Pagination.Min(start, |s|), Pagination.Min(start + p, |s|));
  }

  lemma {:induction false} RunNewestFirst(s: seq<ProjectPost>, lo: int, hi: int)
    requires NewestFirst(s) && 0 <= lo <= hi <= |s|
    ensures NewestFirst(s[lo..hi])
    ensures forall i :: 0 <= i < hi - lo ==> s[lo..hi][i] in s
  {
    assert forall i :: 0 <= i < hi - lo ==> s[lo..hi][i] == s[lo + i];
  }

  /** Page 1 begins with a newest project. */
  lemma {:induction false} FirstPageNewest(l: ProjectList)
    requires l.Valid() && l.currentPage == 1 && l.projects.Length > 0
    ensures l.FilteredPosts() != []
    ensures forall i :: 0 <= i < l.projects.Length ==> l.FilteredPosts()[0].date >= l.projects[i].date
  {
    var s := l.projects[..];
    Pagination.WindowContents(s, 1, l.numPerPage);
    assert l.FilteredPosts()[0] == s[0];
  }

  /** Without the paginator the list shows the `numPerPage` newest projects, and none it leaves out is newer. */
  lemma {:induction false} WithoutPagination(l: ProjectList)
    requires l.Valid() && !l.pagination
    ensures var k := Pagination.Min(l.numPerPage, l.projects.Length);
      && l.FilteredPosts() == l.projects[..k]
      && forall i, j :: 0 <= i < k <= j < l.projects.Length ==> l.projects[i].date >= l.projects[j].date
  {
    Pagination.WindowContents(l.projects[..], 1, l.numPerPage);
  }

  /** The label shows the current page and the last page, and both can be read back from it. */
  lemma {:induction false} LabelShowsPage(l: ProjectList)
    requires l.Valid()
    ensures Paginator.ParseLabel(l.PaginatorLabel()) == Wrappers.Some((l.currentPage as nat, l.MaxPage()))
  {
    Paginator.LabelRoundTrip(l.currentPage, l.MaxPage());
  }
}
