/** The front end: the dashboard's search over the page list fetched from the content
    service, and the blank-title guards in front of the create and edit requests. Page
    rendering, redirects and the HTTP calls themselves are transport; a handler's
    result says which view it ends in and which calls it sent. */
module Web {
  import opened Wrappers
  import Text
  import Seqs
  import Wiki

  /** What the page listing call gave back: a decoded JSON list with its status, or an exception. */
  datatype Listing = Listed(status: int, pages: seq<Wiki.Page>) | Failed

  /** A request the front end sends to the content service, with its Authorization header. */
  datatype WikiCall =
    | ListCall(authorization: string)
    | CreateCall(authorization: string, title: string, content: Option<string>)
    | EditCall(pageId: int, authorization: string, title: string, content: Option<string>)

  /** Where a handler ends: the login page, the dashboard (by redirect), the rendered
      dashboard with its pages and search text, or an unhandled exception. */
  datatype View = ToLogin | ToDashboard | Dashboard(pages: seq<Wiki.Page>, query: string) | ServerError

  datatype Handled = Handled(view: View, calls: seq<WikiCall>)

  /** `if not token`: no session token, or an empty one, counts as logged out. */
  predicate LoggedIn(session: Option<string>)
    ensures LoggedIn(session) <==> session != None && session != Some("")
  {
    session.Some? && session.value != ""
  }

  /** `(p["content"] or "")`: the stored content, with a null content searched as "". */
  function ContentText(p: Wiki.Page): (r: string)
    ensures p.content == Some(r) || (p.content.None? && r == "")
  {
    if p.content.Some? then p.content.value else ""
  }

  /** The comprehension's test, for an already lower-cased query. Every page matches
      the empty query, and a match needs a title or content at least as long as it. */
  predicate Matches(query: string, p: Wiki.Page)
    ensures query == [] ==> Matches(query, p)
    ensures Matches(query, p) ==> |query| <= |p.title| || |query| <= |ContentText(p)|
  {
    Text.Contains(Text.Lower(p.title), query) || Text.Contains(Text.Lower(ContentText(p)), query)
  }

  /** The dashboard search: the query is lower-cased; an empty query keeps the list as
      it is, any other keeps, in order, the pages whose lower-cased title or content
      contains it. */
  function Search(pages: seq<Wiki.Page>, rawQuery: string): (r: seq<Wiki.Page>)
    ensures Text.Lower(rawQuery) == [] ==> r == pages
    ensures forall p :: p in r <==> p in pages && (rawQuery == [] || Matches(Text.Lower(rawQuery), p))
    ensures forall p ::
      multiset(r)[p] == if rawQuery == [] || Matches(Text.Lower(rawQuery), p) then multiset(pages)[p] else 0
  {
    var q := Text.Lower(rawQuery);
    Text.LowerEmpty(rawQuery);
    if q == [] then pages else Seqs.Filter(pages, (p: Wiki.Page) => Matches(q, p))
  }

  /** A page survives a search exactly when the lower-cased query occurs in its
      lower-cased title or in its lower-cased content (a null content counting as ""). */
  lemma SearchKeepsExactlyMatches(pages: seq<Wiki.Page>, rawQuery: string, p: Wiki.Page)
    ensures p in Search(pages, rawQuery) <==>
      p in pages &&
      (Text.Occurs(Text.Lower(p.title), Text.Lower(rawQuery)) ||
       Text.Occurs(Text.Lower(ContentText(p)), Text.Lower(rawQuery)))
  {
    Text.ContainsIffOccurs(Text.Lower(p.title), Text.Lower(rawQuery));
    Text.ContainsIffOccurs(Text.Lower(ContentText(p)), Text.Lower(rawQuery));
    if rawQuery == [] {
      // the empty query occurs at the start of every text
      assert Text.OccursAt(Text.Lower(p.title), [], 0);
    }
  }

  /** The search only removes pages and keeps the order of the rest. */
  lemma SearchPreservesOrder(pages: seq<Wiki.Page>, rawQuery: string)
    ensures Seqs.IsSubsequence(Search(pages, rawQuery), pages)
    ensures |Search(pages, rawQuery)| <= |pages|
  {
    Seqs.FilterIsSubsequence(pages, (p: Wiki.Page) => Matches(Text.Lower(rawQuery), p));
    if Text.Lower(rawQuery) == [] {
      Seqs.SubsequenceReflexive(pages);
    }
  }

  /** Searching the result again with the same query changes nothing. */
  lemma SearchIdempotent(pages: seq<Wiki.Page>, rawQuery: string)
    ensures Search(Search(pages, rawQuery), rawQuery) == Search(pages, rawQuery)
  {
    Seqs.FilterIdempotent(pages, (p: Wiki.Page) => Matches(Text.Lower(rawQuery), p));
  }

  /** The search is case-insensitive in its query: a query and its lower-cased form select the same pages. */
  lemma SearchIgnoresQueryCase(pages: seq<Wiki.Page>, rawQuery: string)
    ensures Search(pages, Text.Lower(rawQuery)) == Search(pages, rawQuery)
  {
    Text.LowerIdempotent(rawQuery);
  }

  /** The page list the dashboard works on: the decoded list on status 200, otherwise
      (another status or an exception) the empty list. */
  function FetchedPages(listing: Listing): (pages: seq<Wiki.Page>)
    ensures !(listing.Listed? && listing.status == 200) ==> pages == []
    ensures listing.Listed? && listing.status == 200 ==> pages == listing.pages
  {
    if listing.Listed? && listing.status == 200 then listing.pages else []
  }

  /** `GET|POST /`: without a session token, the login page and no call; otherwise one
      listing call with the raw token, and the listed pages filtered by the search text
      of a POST (a GET searches for nothing). */
  function ShowDashboard(session: Option<string>, isPost: bool, searchField: Option<string>, listing: Listing): (h: Handled)
    ensures !LoggedIn(session) ==> h == Handled(ToLogin, [])
    ensures LoggedIn(session) ==> h.calls == [ListCall(session.value)] && h.view.Dashboard?
    ensures LoggedIn(session) && !(isPost && searchField.Some?) ==> h.view == Dashboard(FetchedPages(listing), "")
    ensures LoggedIn(session) && isPost && searchField.Some? ==>
      h.view == Dashboard(Search(FetchedPages(listing), searchField.value), Text.Lower(searchField.value))
  {
    if !LoggedIn(session) then Handled(ToLogin, [])
    else
      var raw := if isPost && searchField.Some? then searchField.value else "";
      var query := Text.Lower(raw);
      var pages := FetchedPages(listing);
      Handled(Dashboard(Search(pages, raw), query), [ListCall(session.value)])
  }

  /** `POST /create_page`: a missing title field raises; a title made only of whitespace
      sends nothing; otherwise one create call with "Bearer <token>". Either way the
      handler redirects to the dashboard, whatever the call's outcome. */
  function CreatePageForm(session: Option<string>, title: Option<string>, content: Option<string>): (h: Handled)
    ensures !LoggedIn(session) ==> h == Handled(ToLogin, [])
    ensures LoggedIn(session) && title.None? ==> h == Handled(ServerError, [])
    ensures LoggedIn(session) && title.Some? ==> h.view == ToDashboard
    ensures LoggedIn(session) && title.Some? ==>
      (h.calls == [] <==> forall k :: 0 <= k < |title.value| ==> Text.IsSpace(title.value[k]))
    ensures h.calls != [] ==>
      LoggedIn(session) && title.Some? &&
      h.calls == [CreateCall(Wiki.BearerPrefix + session.value, title.value, content)]
  {
    if !LoggedIn(session) then Handled(ToLogin, [])
    else if title.None? then Handled(ServerError, [])
    else
      Text.StripEmptyIffBlank(title.value);
      if Text.Strip(title.value) == [] then Handled(ToDashboard, [])
      else Handled(ToDashboard, [CreateCall(Wiki.BearerPrefix + session.value, title.value, content)])
  }

  /** `POST /edit_page/<id>`: the same guard; a non-blank title sends one edit call with
      the raw token. The GET branch (fetch and render the form) is not modelled. */
  function EditPageForm(session: Option<string>, pageId: int, title: Option<string>, content: Option<string>): (h: Handled)
    ensures !LoggedIn(session) ==> h == Handled(ToLogin, [])
    ensures LoggedIn(session) && title.None? ==> h == Handled(ServerError, [])
    ensures LoggedIn(session) && title.Some? ==> h.view == ToDashboard
    ensures LoggedIn(session) && title.Some? ==>
      (h.calls == [] <==> forall k :: 0 <= k < |title.value| ==> Text.IsSpace(title.value[k]))
    ensures h.calls != [] ==>
      LoggedIn(session) && title.Some? &&
      h.calls == [EditCall(pageId, session.value, title.value, content)]
  {
    if !LoggedIn(session) then Handled(ToLogin, [])
    else if title.None? then Handled(ServerError, [])
    else
      Text.StripEmptyIffBlank(title.value);
      if Text.Strip(title.value) == [] then Handled(ToDashboard, [])
      else Handled(ToDashboard, [EditCall(pageId, session.value, title.value, content)])
  }
}
