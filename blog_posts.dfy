/**
 * The blog list: the posts it is given, a page size, whether the
 * paginator is shown, and the current page, which starts at 1 and which
 * the paginator's buttons move.
 */
module BlogPosts {
  import Pagination
  import Paginator
  import Wrappers

  /** A post's metadata; the rendered content and its headings play no part in the list. */
  datatype BlogPost = BlogPost(slug: string, title: string, description: string, date: int, showTableOfContents: bool)

  /** One mounted list, with its props and its page state. */
  class LatestBlogPosts {
    const blogs: seq<BlogPost>
    const numPerPage: nat
    const pagination: bool
    var currentPage: int

    /**
     * The page stays between 1 and the last page, and without the
     * paginator (whose buttons are the only way to change it) it stays 1.
     */
    predicate Valid()
      reads this
    {
      && numPerPage > 0
      && Pagination.InRange(currentPage, Pagination.MaxPage(|blogs|, numPerPage))
      && (!pagination ==> currentPage == 1)
    }

    function MaxPage(): nat
      requires numPerPage > 0
    {
      Pagination.MaxPage(|blogs|, numPerPage)
    }

    /** The posts shown on the current page. */
    function FilteredBlogs(): seq<BlogPost>
      reads this
    {
      Pagination.Window(blogs, currentPage, numPerPage)
    }

    /** The "work in progress" message is shown when there are no posts at all. */
    function ShowsEmptyMessage(): bool {
      |blogs| == 0
    }

    /** The label the paginator shows, when it is shown. */
    function PaginatorLabel(): string
      requires Valid()
      reads this
    {
      Paginator.Label(currentPage, MaxPage())
    }

    constructor (blogs: seq<BlogPost>, numPerPage: nat, pagination: bool)
      requires numPerPage > 0
      ensures this.blogs == blogs && this.numPerPage == numPerPage && this.pagination == pagination
      ensures currentPage == 1
      ensures Valid()
    {
      this.blogs := blogs;
      this.numPerPage := numPerPage;
      this.pagination := pagination;
      currentPage := 1;
    }

    /** The next button: one page on, but never past the last page. */
    method OnNextPage()
      requires Valid() && pagination
      modifies this
      ensures Valid()
      ensures currentPage == Pagination.NextPage(old(currentPage), MaxPage())
    {
      Pagination.NextPageStep(currentPage, MaxPage());
      currentPage := Pagination.NextPage(currentPage, MaxPage());
    }

    /** The back button: one page back, but never before page 1. */
    method OnPrevPage()
      requires Valid() && pagination
      modifies this
      ensures Valid()
      ensures currentPage == Pagination.PrevPage(old(currentPage))
    {
      Pagination.PrevPageStep(currentPage, MaxPage());
      currentPage := Pagination.PrevPage(currentPage);
    }
  }

  /** The shown posts are at most a page of consecutive posts from the page's first on, in the list's order. */
  lemma {:induction false} VisibleSlice(l: LatestBlogPosts)
    requires l.Valid()
    ensures |l.FilteredBlogs()| <= l.numPerPage
    ensures forall i :: 0 <= i < |l.FilteredBlogs()| ==>
      (l.currentPage - 1) * l.numPerPage + i < |l.blogs| &&
      l.FilteredBlogs()[i] == l.blogs[(l.currentPage - 1) * l.numPerPage + i]
  {
    Pagination.WindowAt(l.blogs, l.currentPage, l.numPerPage);
  }

  /** On any reachable page, the message shows exactly when the page shows no post. */
  lemma {:induction false} EmptyMessageIffEmptyPage(l: LatestBlogPosts)
    requires l.Valid()
    ensures l.ShowsEmptyMessage() <==> l.FilteredBlogs() == []
  {
    Pagination.WindowNonEmpty(l.blogs, l.currentPage, l.numPerPage);
  }

  /** Without the paginator the list shows its first `numPerPage` posts. */
  lemma {:induction false} WithoutPagination(l: LatestBlogPosts)
    requires l.Valid() && !l.pagination
    ensures l.FilteredBlogs() == l.blogs[..Pagination.Min(l.numPerPage, |l.blogs|)]
  {
    Pagination.WindowContents(l.blogs, 1, l.numPerPage);
  }

  /** The label shows the current page and the last page, and both can be read back from it. */
  lemma {:induction false} LabelShowsPage(l: LatestBlogPosts)
    requires l.Valid()
    ensures Paginator.ParseLabel(l.PaginatorLabel()) == Wrappers.Some((l.currentPage as nat, l.MaxPage()))
  {
    Paginator.LabelRoundTrip(l.currentPage, l.MaxPage());
  }
}
