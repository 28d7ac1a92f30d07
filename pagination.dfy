/** The result pager of the `.id` command (`PaginationView`): a page number,
    a previous and a next button whose disabled flags follow the page
    number, clicks that only the requesting user may make, and the listing
    of one page with numbers that continue from page to page. */
module Pagination {
  import opened Text

  type UserId = nat

  /** `per_page` when the caller does not give one. */
  const DefaultPerPage: nat := 20

  /** One line of a page: `f"{number}. {item}"`. */
  datatype NumberedEntry = NumberedEntry(number: int, item: string)

  /** What an embed shows of the state: the page's lines and the footer's
      `Page {pageNumber}/{totalPages}`. */
  datatype Embed = Embed(entries: seq<NumberedEntry>, pageNumber: int, totalPages: int)

  datatype Button = Previous | Next
  datatype Click = Click(user: UserId, button: Button)

  /** The answer to a click: the "cannot control this pagination" notice, the
      edited message, or the division by zero `create_embed` raises when
      `per_page` is 0. */
  datatype ClickReply = Denied | Edited(embed: Embed) | Failed

  // ---------------------------------------------------------------- pages

  /** Python's normalisation of a slice bound: a negative bound counts from the end. */
  function SliceBound(i: int, n: nat): (r: nat)
    ensures r <= n
  {
    if i < 0 then (if i + n < 0 then 0 else i + n) else if i > n then n else i
  }

  /** `s[start:stop]` with Python's semantics: no longer than `s` or than the
      distance between the bounds; with bounds that are not negative, the
      stretch between them clamped to the length. */
  function PySlice<T>(s: seq<T>, start: int, stop: int): (r: seq<T>)
    ensures |r| <= |s|
    ensures start <= stop ==> |r| <= stop - start
    ensures 0 <= start <= stop ==> r == s[Min(start, |s|)..Min(stop, |s|)]
  {
    var a := SliceBound(start, |s|);
    var b := SliceBound(stop, |s|);
    if a < b then s[a..b] else []
  }

  function Min(a: int, b: int): int
  {
    if a <= b then a else b
  }

  /** Every result with its position in the whole list, counting from 1. */
  function Numbered(results: seq<string>): (r: seq<NumberedEntry>)
    ensures |r| == |results|
    ensures forall i :: 0 <= i < |r| ==> r[i].item == results[i] && r[i].number == i + 1
  {
    seq(|results|, i requires 0 <= i < |results| => NumberedEntry(i + 1, results[i]))
  }

  /** The slice `results[start:start + size]`, item `i` numbered `start + i + 1`. */
  function Window(results: seq<string>, start: int, size: nat): (r: seq<NumberedEntry>)
    ensures |r| <= size && |r| <= |results|
    ensures forall i :: 0 <= i < |r| ==> r[i].number == start + i + 1
    ensures start >= 0 ==> forall i :: 0 <= i < |r| ==> start + i < |results| && r[i].item == results[start + i]
  {
    var items := PySlice(results, start, start + size);
    seq(|items|, i requires 0 <= i < |items| => NumberedEntry(start + i + 1, items[i]))
  }

  /** The lines `create_embed` lists for `page`: the window of `per_page`
      results that starts at `page * per_page`. */
  function PageEntries(results: seq<string>, perPage: nat, page: int): (r: seq<NumberedEntry>)
    ensures |r| <= perPage
    ensures forall i :: 0 <= i < |r| ==> r[i].number == page * perPage + i + 1
  {
    Window(results, page * perPage, perPage)
  }

  /** `(len(results) - 1) // per_page + 1`. Python's `//` floors; for a
      positive divisor that is Dafny's `/`. */
  function TotalPages(n: nat, perPage: nat): (r: nat)
    requires perPage > 0
    ensures n == 0 ==> r == 0
    ensures n > 0 ==> (r - 1) * perPage < n <= r * perPage
  {
    var q := (n - 1) / perPage;
    assert n - 1 == q * perPage + (n - 1) % perPage;
    assert n == 0 ==> q == -1;
    assert (q + 1) * perPage == q * perPage + perPage;
    q + 1
  }

  /** A window that starts at a position that is not negative is the
      stretch `[start, start + size)` of the globally numbered list. */
  lemma WindowIsSliceOfNumbering(results: seq<string>, start: nat, size: nat)
    ensures Window(results, start, size) == Numbered(results)[Min(start, |results|)..Min(start + size, |results|)]
  {
    var a, b := Min(start, |results|), Min(start + size, |results|);
    var w := Window(results, start, size);
    var expected := Numbered(results)[a..b];
    assert |w| == |expected|;
    forall i | 0 <= i < |w|
      ensures w[i] == expected[i]
    {
      assert a == start;
    }
  }

  /** For a page number that is not negative, the page is the stretch
      `[start, start + per_page)` of the globally numbered list. */
  lemma PageIsSliceOfNumbering(results: seq<string>, perPage: nat, page: int)
    requires page >= 0
    ensures PageEntries(results, perPage, page)
            == Numbered(results)[Min(page * perPage, |results|)..Min(page * perPage + perPage, |results|)]
  {
    var start: nat := page * perPage;
    WindowIsSliceOfNumbering(results, start, perPage);
  }

  /** A page with a number that is not negative has lines exactly when it is in range. */
  lemma PageNonEmpty(results: seq<string>, perPage: nat, page: int)
    requires perPage > 0
    ensures page >= 0 ==> (InRange(page, perPage, |results|) <==> |PageEntries(results, perPage, page)| > 0)
  {
    if page >= 0 {
      PageIsSliceOfNumbering(results, perPage, page);
    }
  }

  /** Page -1, where `previous_page` leads from page 0, lists nothing: its
      slice `results[-per_page:0]` ends at 0. */
  lemma PageMinusOneEmpty(results: seq<string>, perPage: nat)
    ensures PageEntries(results, perPage, -1) == []
  {
  }

  /** The lines of pages `0 .. k - 1`, one page after another. */
  function AllPages(results: seq<string>, perPage: nat, k: nat): seq<NumberedEntry>
  {
    if k == 0 then [] else AllPages(results, perPage, k - 1) + PageEntries(results, perPage, k - 1)
  }

  /** Paging through pages `0 .. k - 1` shows a prefix of the numbered list,
      with no line missing or repeated. */
  lemma {:induction false} AllPagesPrefix(results: seq<string>, perPage: nat, k: nat)
    ensures AllPages(results, perPage, k) == Numbered(results)[..Min(k * perPage, |results|)]
  {
    if k > 0 {
      AllPagesPrefix(results, perPage, k - 1);
      PageIsSliceOfNumbering(results, perPage, k - 1);
      assert (k - 1) * perPage + perPage == k * perPage;
      assert (k - 1) * perPage >= 0;
      PrefixJoin(Numbered(results), Min((k - 1) * perPage, |results|), Min(k * perPage, |results|));
    }
  }

  lemma PrefixJoin<T>(s: seq<T>, a: nat, b: nat)
    requires a <= b <= |s|
    ensures s[..a] + s[a..b] == s[..b]
  {
  }

  /** All the pages together list every result once, numbered 1 .. len(results). */
  lemma PagesCoverResults(results: seq<string>, perPage: nat)
    requires perPage > 0
    ensures AllPages(results, perPage, TotalPages(|results|, perPage)) == Numbered(results)
  {
    var t := TotalPages(|results|, perPage);
    AllPagesPrefix(results, perPage, t);
    assert Min(t * perPage, |results|) == |results|;
  }

  // ------------------------------------------------------- page navigation

  /** The pages a view can show: `0 <= page` and the page's first result exists. */
  predicate InRange(page: int, perPage: nat, n: nat)
  {
    0 <= page && page * perPage < n
  }

  /** `self.prev_button.disabled = self.current_page == 0` */
  predicate PrevDisabledAt(page: int)
  {
    page == 0
  }

  /** `self.next_button.disabled = (self.current_page + 1) * self.per_page >= len(self.results)` */
  predicate NextDisabledAt(page: int, perPage: nat, n: nat)
  {
    (page + 1) * perPage >= n
  }

  /** On a page in range, a button is enabled exactly when the page it leads to is in range. */
  lemma ButtonsMatchNeighbours(page: int, perPage: nat, n: nat)
    requires InRange(page, perPage, n)
    ensures !PrevDisabledAt(page) <==> InRange(page - 1, perPage, n)
    ensures !NextDisabledAt(page, perPage, n) <==> InRange(page + 1, perPage, n)
  {
    assert (page - 1) * perPage == page * perPage - perPage;
  }

  /** The footer's `current_page + 1` never exceeds the page count on a page in range. */
  lemma PageWithinTotal(page: int, perPage: nat, n: nat)
    requires perPage > 0
    ensures InRange(page, perPage, n) ==> 1 <= page + 1 <= TotalPages(n, perPage)
  {
  }

  /** The page number after a click: the requesting user moves one page,
      anybody else leaves it where it was. */
  function Turn(page: int, author: UserId, c: Click): (r: int)
    ensures c.user != author ==> r == page
    ensures c.user == author ==> r == page - 1 || r == page + 1
    ensures r > page <==> c.user == author && c.button == Next
    ensures r < page <==> c.user == author && c.button == Previous
  {
    if c.user != author then page
    else match c.button
      case Previous => page - 1
      case Next => page + 1
  }

  predicate Enabled(page: int, perPage: nat, n: nat, b: Button)
  {
    match b
    case Previous => !PrevDisabledAt(page)
    case Next => !NextDisabledAt(page, perPage, n)
  }

  /** The page number after a run of clicks. */
  function Replay(page: int, author: UserId, clicks: seq<Click>): int
    decreases |clicks|
  {
    if clicks == [] then page else Replay(Turn(page, author, clicks[0]), author, clicks[1..])
  }

  /** Every click of the run hits a button that is enabled when it is clicked. */
  predicate OnlyEnabledClicks(page: int, perPage: nat, n: nat, author: UserId, clicks: seq<Click>)
    decreases |clicks|
  {
    clicks == []
    || (Enabled(page, perPage, n, clicks[0].button)
        && OnlyEnabledClicks(Turn(page, author, clicks[0]), perPage, n, author, clicks[1..]))
  }

  /** Clicking only enabled buttons keeps the page in range. */
  lemma {:induction false} EnabledClicksStayInRange(page: int, perPage: nat, n: nat, author: UserId, clicks: seq<Click>)
    requires InRange(page, perPage, n)
    requires OnlyEnabledClicks(page, perPage, n, author, clicks)
    ensures InRange(Replay(page, author, clicks), perPage, n)
    decreases |clicks|
  {
    if clicks != [] {
      ButtonsMatchNeighbours(page, perPage, n);
      EnabledClicksStayInRange(Turn(page, author, clicks[0]), perPage, n, author, clicks[1..]);
    }
  }

  /** A view over a non-empty result list starts on page 0, and clicking only
      enabled buttons never leaves the range of pages. */
  lemma SessionStaysInRange(perPage: nat, n: nat, author: UserId, clicks: seq<Click>)
    requires n > 0
    requires OnlyEnabledClicks(0, perPage, n, author, clicks)
    ensures InRange(Replay(0, author, clicks), perPage, n)
    ensures perPage > 0 ==> Replay(0, author, clicks) + 1 <= TotalPages(n, perPage)
  {
    EnabledClicksStayInRange(0, perPage, n, author, clicks);
    if perPage > 0 {
      PageWithinTotal(Replay(0, author, clicks), perPage, n);
    }
  }

  // ------------------------------------------------------------- the view

  class PaginationView {
    const results: seq<string>
    const keyword: string
    const author: UserId
    const perPage: nat
    var currentPage: int
    var prevDisabled: bool
    var nextDisabled: bool

    /** The buttons' flags are those `update_buttons` derives from the page. */
    ghost predicate ButtonsCurrent()
      reads this
    {
      && prevDisabled == PrevDisabledAt(currentPage)
      && nextDisabled == NextDisabledAt(currentPage, perPage, |results|)
    }

    ghost predicate OnValidPage()
      reads this
    {
      InRange(currentPage, perPage, |results|)
    }

    constructor (results: seq<string>, keyword: string, author: UserId, perPage: nat := DefaultPerPage)
      ensures this.results == results && this.keyword == keyword
      ensures this.author == author && this.perPage == perPage
      ensures currentPage == 0 && ButtonsCurrent()
      ensures OnValidPage() <==> |results| > 0
    {
      this.results := results;
      this.keyword := keyword;
      this.author := author;
      this.perPage := perPage;
      currentPage := 0;
      new;
      UpdateButtons();
    }

    method UpdateButtons()
      modifies this`prevDisabled, this`nextDisabled
      ensures prevDisabled <==> currentPage == 0
      ensures nextDisabled <==> (currentPage + 1) * perPage >= |results|
      ensures ButtonsCurrent()
    {
      prevDisabled := currentPage == 0;
      nextDisabled := (currentPage + 1) * perPage >= |results|;
    }

    /** `create_embed`: the current page's lines and the page counter. */
    function CreateEmbed(): (e: Option<Embed>)
      reads this
      ensures e.Some? <==> perPage > 0
      ensures e.Some? ==> e.value.pageNumber == currentPage + 1
      ensures e.Some? ==> e.value.entries == PageEntries(results, perPage, currentPage)
      ensures e.Some? ==> e.value.totalPages == TotalPages(|results|, perPage)
      ensures e.Some? ==> |e.value.entries| <= perPage
      ensures e.Some? ==> forall i :: 0 <= i < |e.value.entries| ==>
                            e.value.entries[i].number == currentPage * perPage + i + 1
      ensures e.Some? && InRange(currentPage, perPage, |results|) ==>
                1 <= e.value.pageNumber <= e.value.totalPages && |e.value.entries| > 0
    {
      if perPage == 0 then None
      else
        var entries := PageEntries(results, perPage, currentPage);
        PageWithinTotal(currentPage, perPage, |results|);
        PageNonEmpty(results, perPage, currentPage);
        Some(Embed(entries, currentPage + 1, TotalPages(|results|, perPage)))
    }

    /** `update_message`: render the page, then refresh the buttons. */
    method UpdateMessage() returns (reply: ClickReply)
      modifies this`prevDisabled, this`nextDisabled
      ensures perPage == 0 ==> reply == Failed && unchanged(this)
      ensures perPage > 0 ==> ButtonsCurrent() && CreateEmbed().Some? && reply == Edited(CreateEmbed().value)
    {
      var embed := CreateEmbed();
      if embed.None? {
        return Failed;
      }
      UpdateButtons();
      reply := Edited(embed.value);
    }

    /** `previous_page`: only the requesting user may turn back a page. */
    method PreviousPage(user: UserId) returns (reply: ClickReply)
      modifies this
      ensures user != author ==> reply == Denied && unchanged(this)
      ensures user == author ==> currentPage == old(currentPage) - 1
      ensures user == author && perPage > 0 ==> ButtonsCurrent() && reply == Edited(CreateEmbed().value)
      ensures user == author && perPage == 0 ==>
                reply == Failed && prevDisabled == old(prevDisabled) && nextDisabled == old(nextDisabled)
      ensures currentPage == Turn(old(currentPage), author, Click(user, Previous))
      ensures old(OnValidPage() && ButtonsCurrent() && !prevDisabled) ==> OnValidPage()
    {
      if user != author {
        return Denied;
      }
      if InRange(currentPage, perPage, |results|) {
        ButtonsMatchNeighbours(currentPage, perPage, |results|);
      }
      currentPage := currentPage - 1;
      reply := UpdateMessage();
    }

    /** `next_page`: only the requesting user may turn to the next page. */
    method NextPage(user: UserId) returns (reply: ClickReply)
      modifies this
      ensures user != author ==> reply == Denied && unchanged(this)
      ensures user == author ==> currentPage == old(currentPage) + 1
      ensures user == author && perPage > 0 ==> ButtonsCurrent() && reply == Edited(CreateEmbed().value)
      ensures user == author && perPage == 0 ==>
                reply == Failed && prevDisabled == old(prevDisabled) && nextDisabled == old(nextDisabled)
      ensures currentPage == Turn(old(currentPage), author, Click(user, Next))
      ensures old(OnValidPage() && ButtonsCurrent() && !nextDisabled) ==> OnValidPage()
    {
      if user != author {
        return Denied;
      }
      if InRange(currentPage, perPage, |results|) {
        ButtonsMatchNeighbours(currentPage, perPage, |results|);
      }
      currentPage := currentPage + 1;
      reply := UpdateMessage();
    }
  }
}
