/** The `.id` command (`search_item`): it ties the catalog search to the pager. */
module Commands {
  import opened Text
  import opened Catalog
  import opened Pagination

  /** Queries shorter than this are refused before any search. */
  const MinQueryLength: nat := 3

  /** What the command sends back: the "at least 3 characters" notice, the
      "no items found" notice, or the first page of a new pager. */
  datatype SearchReply =
    | TooShort
    | NoItems(query: string)
    | Listing(view: PaginationView, embed: Embed)

  /** `search_item` over the catalog text `catalog`, for the user `author`. */
  method SearchItem(catalog: string, itemName: string, author: UserId) returns (reply: SearchReply)
    ensures reply.TooShort? <==> |itemName| < MinQueryLength
    ensures reply.NoItems? <==> |itemName| >= MinQueryLength && Search(catalog, itemName) == []
    ensures reply.NoItems? ==> reply.query == itemName
    ensures reply.Listing? ==>
              && fresh(reply.view)
              && reply.view.results == Search(catalog, itemName) != []
              && reply.view.keyword == itemName && reply.view.author == author
              && reply.view.perPage == DefaultPerPage
              && reply.view.currentPage == 0
              && reply.view.ButtonsCurrent() && reply.view.OnValidPage()
              && reply.view.CreateEmbed() == Some(reply.embed)
  {
    if |itemName| < MinQueryLength {
      return TooShort;
    }
    var results := SearchItems(catalog, itemName);
    if results == [] {
      return NoItems(itemName);
    }
    var view := new PaginationView(results, itemName, author);
    var embed := view.CreateEmbed();
    reply := Listing(view, embed.value);
  }
}
