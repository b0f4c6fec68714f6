/** The content service: a catalog table and a page table, and the five page routes,
    each gated by a remote token check against the identity service. */
module Wiki {
  import opened Wrappers
  import Text
  import Seqs

  /** A catalog row; the table is keyed by the catalog's integer primary key. */
  datatype Catalog = Catalog(name: string, hidden: bool)

  /** A page row. `content` and `catalogId` are nullable columns; `title` is NOT NULL. */
  datatype Page = Page(id: int, title: string, content: Option<string>, catalogId: Option<int>, hidden: bool)

  /** Title given to a page created without a "title" key ("Untitled"). */
  const DefaultTitle: string := "Без названия"

  // ================================================================ token check

  /** What the identity service's verify endpoint gave back for one call: an HTTP
      status, or an exception (timeout, refused connection, ...). */
  datatype Answer = Status(code: int) | Unreachable

  /** Whether the request may proceed, and the tokens sent to the identity service. */
  datatype TokenCheck = TokenCheck(accepted: bool, sent: seq<string>)

  const BearerPrefix: string := "Bearer "

  /** Normalisation of the Authorization header: a header starting with exactly
      "Bearer " (case-sensitive) becomes `header.split(" ")[1]`, the text after the
      first space up to the next space; any other header is kept as it is. */
  function NormalizeToken(header: string): (t: string)
    ensures BearerPrefix <= header ==>
      ' ' !in t && 7 + |t| <= |header| && t == header[7..7 + |t|] &&
      (7 + |t| == |header| || header[7 + |t|] == ' ')
    ensures !(BearerPrefix <= header) ==> t == header
  {
    if BearerPrefix <= header then
      var rest := header[7..];
      assert header == "Bearer" + [' '] + rest;
      Text.SplitAtFirst("Bearer", rest, ' ');
      Text.FirstPartEndsAtSeparator(rest, ' ');
      Text.Split(header, ' ')[1]
    else header
  }

  /** A token without spaces survives being wrapped as "Bearer <token>". */
  lemma BearerRoundTrip(token: string)
    requires ' ' !in token
    ensures NormalizeToken(BearerPrefix + token) == token
  {
    var h := BearerPrefix + token;
    var t := NormalizeToken(h);
    assert h[7..] == token;
  }

  /** Normalising an already normalised header changes nothing. */
  lemma NormalizeIdempotent(header: string)
    ensures NormalizeToken(NormalizeToken(header)) == NormalizeToken(header)
  {
    var t := NormalizeToken(header);
    assert BearerPrefix[6] == ' ';
    if BearerPrefix <= header {
      assert !(BearerPrefix <= t);
    }
  }

  /** `verify_token`: an absent or empty header is refused with no call made;
      otherwise the normalised token is posted once (no retry) and the request is
      accepted exactly when the answer is status 200. Any other status and any
      exception refuse it. */
  function VerifyToken(header: Option<string>, remote: string -> Answer): (c: TokenCheck)
    ensures |c.sent| <= 1
    ensures c.sent == [] <==> header.None? || header.value == ""
    ensures c.sent != [] ==> c.sent[0] == NormalizeToken(header.value)
    ensures c.accepted <==> c.sent != [] && remote(c.sent[0]) == Status(200)
  {
    if header.None? || header.value == "" then TokenCheck(false, [])
    else
      var token := NormalizeToken(header.value);
      TokenCheck(remote(token) == Status(200), [token])
  }

  // ================================================================ page table

  /** Page ids ascend strictly in table order (the order a scan returns rows in). */
  ghost predicate IdsAscending(pages: seq<Page>)
  {
    forall i, j :: 0 <= i < j < |pages| ==> pages[i].id < pages[j].id
  }

  /** Every page that names a catalog names one that exists. */
  ghost predicate RefsResolve(pages: seq<Page>, catalogs: map<int, Catalog>)
  {
    forall p :: p in pages && p.catalogId.Some? ==> p.catalogId.value in catalogs
  }

  /** The largest id in a non-empty table. */
  function MaxId(pages: seq<Page>): (m: int)
    requires pages != []
    ensures forall p :: p in pages ==> p.id <= m
    ensures exists p :: p in pages && p.id == m
    decreases |pages|
  {
    if |pages| == 1 then pages[0].id
    else
      var m := MaxId(pages[1..]);
      assert forall p :: p in pages[1..] ==> p in pages;
      if pages[0].id > m then pages[0].id else m
  }

  /** The id SQLite gives a new row: one more than the largest id present, 1 for an empty table. */
  function NextRowId(pages: seq<Page>): (n: int)
    ensures forall p :: p in pages ==> p.id < n
  {
    if pages == [] then 1 else MaxId(pages) + 1
  }

  /** `Page.query.get(id)`: the position of the page with that id, if any. */
  function IndexOf(pages: seq<Page>, id: int): (r: Option<nat>)
    ensures r.Some? ==> r.value < |pages| && pages[r.value].id == id
    ensures r.None? <==> forall p :: p in pages ==> p.id != id
    decreases |pages|
  {
    if pages == [] then None
    else if pages[0].id == id then Some(0)
    else
      match IndexOf(pages[1..], id)
      case None => None
      case Some(k) => Some(k + 1)
  }

  /** The rows of the table that a query with an optional `catalog_id` filter returns:
      in table order, exactly the pages of that catalog, or every page without a filter. */
  function InCatalog(pages: seq<Page>, catalogId: Option<int>): (r: seq<Page>)
    ensures forall p :: p in r <==> p in pages && (catalogId.None? || p.catalogId == catalogId)
    ensures forall p ::
      multiset(r)[p] == if catalogId.None? || p.catalogId == catalogId then multiset(pages)[p] else 0
    ensures Seqs.IsSubsequence(r, pages)
    ensures catalogId.None? ==> r == pages
  {
    var keep := (p: Page) => catalogId.None? || p.catalogId == catalogId;
    Seqs.FilterIsSubsequence(pages, keep);
    if catalogId.None? then Seqs.FilterAll(pages, keep); Seqs.Filter(pages, keep)
    else Seqs.Filter(pages, keep)
  }

  /** Removing the row at the position of an id removes exactly the page with that id
      and keeps the ids ascending. */
  lemma RemoveExactly(pages: seq<Page>, i: int)
    requires IdsAscending(pages) && 0 <= i < |pages|
    ensures var r := pages[..i] + pages[i + 1..];
      IdsAscending(r) && forall q :: q in r <==> q in pages && q.id != pages[i].id
  {
    var r := pages[..i] + pages[i + 1..];
    assert forall k :: 0 <= k < |r| ==> r[k] == if k < i then pages[k] else pages[k + 1];
    forall q | q in pages && q.id != pages[i].id ensures q in r {
      var k :| 0 <= k < |pages| && pages[k] == q;
      assert k != i;
      assert r[if k < i then k else k - 1] == q;
    }
  }

  /** Replacing the row at a position by a row with the same id keeps the ids ascending
      and leaves every page with another id where it was. */
  lemma ReplaceExactly(pages: seq<Page>, i: int, p: Page)
    requires IdsAscending(pages) && 0 <= i < |pages| && p.id == pages[i].id
    ensures IdsAscending(pages[i := p])
    ensures p in pages[i := p]
    ensures forall q: Page :: q.id != p.id ==> (q in pages[i := p] <==> q in pages)
  {
    var r := pages[i := p];
    assert r[i] == p;
    forall q: Page | q.id != p.id && q in pages ensures q in r {
      var k :| 0 <= k < |pages| && pages[k] == q;
      assert r[k] == q;
    }
    forall q: Page | q.id != p.id && q in r ensures q in pages {
      var k :| 0 <= k < |r| && r[k] == q;
      assert pages[k] == q;
    }
  }

  /** The partial update of `edit_page`: a supplied title or content replaces the old
      one (a JSON null content clears it), an absent key keeps it, and the id, catalog
      and hidden flag are untouched. A null title is refused before this is applied. */
  function Edited(p: Page, title: Field<string>, content: Field<string>): (r: Page)
    ensures r.id == p.id && r.catalogId == p.catalogId && r.hidden == p.hidden
    ensures r.title == (if title.Given? then title.value else p.title)
    ensures content.Absent? ==> r.content == p.content
    ensures content.Null? ==> r.content.None?
    ensures content.Given? ==> r.content == Some(content.value)
  {
    var newContent := match content
      case Absent => p.content
      case Null => None
      case Given(c) => Some(c);
    p.(title := if title.Given? then title.value else p.title, content := newContent)
  }

  // ================================================================ routes

  /** The JSON body of a create request: no JSON at all (a JSON `null`), or an object
      with the three keys the route reads (each absent, null or given) and the number of
      other keys, which the route ignores. */
  datatype CreateBody =
    | NoJson
    | Object(title: Field<string>, content: Field<string>, catalogId: Field<int>, otherKeys: nat)

  /** Python truthiness of the body (`if not data`): None and the empty object are false. */
  predicate IsTruthy(body: CreateBody)
    ensures IsTruthy(body) <==> body.Object? && body != Object(Absent, Absent, Absent, 0)
  {
    body.Object? &&
    (!body.title.Absent? || !body.content.Absent? || !body.catalogId.Absent? || body.otherKeys > 0)
  }

  /** `if catalog_id:` — the catalog is looked up only for a non-zero integer, so only
      for a body that has passed the emptiness test, and never for a 0 or a null. */
  predicate ChecksCatalog(body: CreateBody)
    ensures ChecksCatalog(body) ==> IsTruthy(body)
    ensures body.Object? && (body.catalogId == Given(0) || !body.catalogId.Given?) ==> !ChecksCatalog(body)
  {
    body.Object? && body.catalogId.Given? && body.catalogId.value != 0
  }

  /** The JSON body of an edit request. */
  datatype EditBody = EditBody(title: Field<string>, content: Field<string>)

  class PageStore {
    var catalogs: map<int, Catalog>
    var pages: seq<Page>

    ghost predicate Valid()
      reads this
    {
      IdsAscending(pages)
    }

    constructor (catalogs: map<int, Catalog>)
      ensures Valid() && this.catalogs == catalogs && pages == []
    {
      this.catalogs := catalogs;
      pages := [];
    }

    /** `POST /api/pages`. After the token gate: an empty body gives 400; a truthy
        catalog_id naming no catalog gives 400; otherwise one row is added with the
        defaults for absent keys and its fresh id is returned. A null title violates
        NOT NULL and, like any failed commit, is rolled back with 500. */
    method CreatePage(header: Option<string>, remote: string -> Answer, body: CreateBody, commitOk: bool)
      returns (status: int, id: Option<int>)
      requires Valid()
      modifies this`pages
      ensures Valid()
      ensures status == 401 <==> !VerifyToken(header, remote).accepted
      ensures status == 400 <==> (VerifyToken(header, remote).accepted &&
        (!IsTruthy(body) || (ChecksCatalog(body) && body.catalogId.value !in catalogs)))
      ensures status == 200 <==> (VerifyToken(header, remote).accepted && IsTruthy(body) &&
        (ChecksCatalog(body) ==> body.catalogId.value in catalogs) && !body.title.Null? && commitOk)
      ensures status == 200 || status == 400 || status == 401 || status == 500
      ensures status != 200 ==> pages == old(pages) && id.None?
      ensures status == 200 ==>
        && id == Some(NextRowId(old(pages)))
        && (forall q :: q in old(pages) ==> q.id != id.value)
        && |pages| == |old(pages)| + 1 && pages[..|old(pages)|] == old(pages)
        && var p := pages[|old(pages)|];
        && p.id == id.value
        && Some(p.title) == GetOr(body.title, DefaultTitle)
        && p.content == GetOr(body.content, "")
        && p.catalogId == (if body.catalogId.Given? then Some(body.catalogId.value) else None)
        && !p.hidden
      ensures old(RefsResolve(pages, catalogs)) && !(body.Object? && body.catalogId == Given(0)) ==>
        RefsResolve(pages, catalogs)
    {
      var check := VerifyToken(header, remote);
      if !check.accepted {
        return 401, None;
      }
      if !IsTruthy(body) {
        return 400, None;               // "invalid json"
      }
      if ChecksCatalog(body) && body.catalogId.value !in catalogs {
        return 400, None;               // "Catalog id ... does not exist"
      }
      var title := GetOr(body.title, DefaultTitle);
      var content := GetOr(body.content, "");
      var catalogId := if body.catalogId.Given? then Some(body.catalogId.value) else None;
      if title.None? || !commitOk {
        return 500, None;               // rolled back: the table is as before
      }
      var n := NextRowId(pages);
      var row := Page(n, title.value, content, catalogId, false);
      pages := pages + [row];
      return 200, Some(n);
    }

    /** `GET /api/pages`: every row in table order, or only the rows whose catalog
        matches when a `catalog_id` argument is given. */
    method ListPages(header: Option<string>, remote: string -> Answer, catalogArg: Option<int>)
      returns (status: int, rows: seq<Page>)
      ensures status == 401 <==> !VerifyToken(header, remote).accepted
      ensures status == 200 <==> VerifyToken(header, remote).accepted
      ensures status == 401 ==> rows == []
      ensures status == 200 ==>
        forall p :: p in rows <==> p in pages && (catalogArg.None? || p.catalogId == catalogArg)
      ensures status == 200 ==> Seqs.IsSubsequence(rows, pages)
      ensures status == 200 && catalogArg.None? ==> rows == pages
    {
      var check := VerifyToken(header, remote);
      if !check.accepted {
        return 401, [];
      }
      return 200, InCatalog(pages, catalogArg);
    }

    /** `GET /api/pages/<id>`: the page with that id, or 404. */
    method GetPage(header: Option<string>, remote: string -> Answer, pageId: int)
      returns (status: int, page: Option<Page>)
      ensures status == 401 <==> !VerifyToken(header, remote).accepted
      ensures status == 404 <==> VerifyToken(header, remote).accepted && (forall q :: q in pages ==> q.id != pageId)
      ensures status == 200 || status == 401 || status == 404
      ensures status == 200 <==> page.Some?
      ensures page.Some? ==> page.value in pages && page.value.id == pageId
    {
      var check := VerifyToken(header, remote);
      if !check.accepted {
        return 401, None;
      }
      var i := IndexOf(pages, pageId);
      if i.None? {
        return 404, None;
      }
      return 200, Some(pages[i.value]);
    }

    /** `PUT /api/pages/<id>`: replaces only the supplied fields of that page. A missing
        page gives 404; a null title (NOT NULL) or a failed commit gives 500 and the
        session is discarded, so nothing changes. */
    method EditPage(header: Option<string>, remote: string -> Answer, pageId: int, body: EditBody, commitOk: bool)
      returns (status: int)
      requires Valid()
      modifies this`pages
      ensures Valid()
      ensures status == 401 <==> !VerifyToken(header, remote).accepted
      ensures status == 404 <==> VerifyToken(header, remote).accepted && IndexOf(old(pages), pageId).None?
      ensures status == 200 <==> (VerifyToken(header, remote).accepted && IndexOf(old(pages), pageId).Some? &&
        !body.title.Null? && commitOk)
      ensures status == 200 || status == 401 || status == 404 || status == 500
      ensures status != 200 ==> pages == old(pages)
      ensures status == 200 ==>
        var i := IndexOf(old(pages), pageId).value;
        pages == old(pages)[i := Edited(old(pages)[i], body.title, body.content)]
      ensures status == 200 ==> forall q: Page :: q.id != pageId ==> (q in pages <==> q in old(pages))
    {
      var check := VerifyToken(header, remote);
      if !check.accepted {
        return 401;
      }
      var i := IndexOf(pages, pageId);
      if i.None? {
        return 404;
      }
      if body.title.Null? || !commitOk {
        return 500;
      }
      var updated := Edited(pages[i.value], body.title, body.content);
      ReplaceExactly(pages, i.value, updated);
      pages := pages[i.value := updated];
      return 200;
    }

    /** `DELETE /api/pages/<id>`: removes exactly that page, or 404 when there is none;
        a failed commit gives 500 and nothing changes. */
    method DeletePage(header: Option<string>, remote: string -> Answer, pageId: int, commitOk: bool)
      returns (status: int)
      requires Valid()
      modifies this`pages
      ensures Valid()
      ensures status == 401 <==> !VerifyToken(header, remote).accepted
      ensures status == 404 <==> VerifyToken(header, remote).accepted && IndexOf(old(pages), pageId).None?
      ensures status == 200 <==> VerifyToken(header, remote).accepted && IndexOf(old(pages), pageId).Some? && commitOk
      ensures status == 200 || status == 401 || status == 404 || status == 500
      ensures status != 200 ==> pages == old(pages)
      ensures status == 200 ==>
        var i := IndexOf(old(pages), pageId).value;
        pages == old(pages)[..i] + old(pages)[i + 1..]
      ensures status == 200 ==> forall q :: q in pages <==> q in old(pages) && q.id != pageId
    {
      var check := VerifyToken(header, remote);
      if !check.accepted {
        return 401;
      }
      var i := IndexOf(pages, pageId);
      if i.None? {
        return 404;
      }
      if !commitOk {
        return 500;
      }
      RemoveExactly(pages, i.value);
      pages := pages[..i.value] + pages[i.value + 1..];
      return 200;
    }
  }
}
