/** How the three services fit together: the token the front end holds reaches the
    identity service unchanged whichever route carries it, the content service's gate
    agrees with the identity service's verify route, and a create request built by the
    front end is one the content service accepts as given. */
module Services {
  import opened Wrappers
  import Auth
  import Wiki
  import Web

  /** The answer the content service sees when the identity service's verify route
      replies (a reply always arrives; network failures are `Wiki.Unreachable`). */
  function AnswerOf(reply: Auth.Reply): (a: Wiki.Answer)
    ensures a == Wiki.Status(200) <==> reply.status == 200
  {
    Wiki.Status(reply.status)
  }

  /** A token with no space is sent to the verifier as it is (it cannot start with "Bearer "). */
  lemma RawTokenUnchanged(token: string)
    requires ' ' !in token
    ensures Wiki.NormalizeToken(token) == token
  {
    assert Wiki.BearerPrefix[6] == ' ';
  }

  /** The dashboard sends the raw session token to the content service; for a token
      without spaces (a JWT has none) that is the token the verifier receives. */
  lemma DashboardSendsSessionToken(token: string, isPost: bool, search: Option<string>, listing: Web.Listing)
    requires token != "" && ' ' !in token
    ensures var h := Web.ShowDashboard(Some(token), isPost, search, listing);
      |h.calls| == 1 && Wiki.NormalizeToken(h.calls[0].authorization) == token
  {
    RawTokenUnchanged(token);
  }

  /** The create form sends "Bearer <token>"; the verifier receives the same token the
      dashboard sends. */
  lemma CreateSendsSessionToken(token: string, title: Option<string>, content: Option<string>)
    requires token != "" && ' ' !in token
    ensures var h := Web.CreatePageForm(Some(token), title, content);
      forall c :: c in h.calls ==> Wiki.NormalizeToken(c.authorization) == token
  {
    Wiki.BearerRoundTrip(token);
  }

  /** The edit form sends the raw token again; the verifier receives the same token. */
  lemma EditSendsSessionToken(token: string, pageId: int, title: Option<string>, content: Option<string>)
    requires token != "" && ' ' !in token
    ensures var h := Web.EditPageForm(Some(token), pageId, title, content);
      forall c :: c in h.calls ==> Wiki.NormalizeToken(c.authorization) == token
  {
    RawTokenUnchanged(token);
  }

  /** With the identity service reachable, the content service admits a request exactly
      when its header is non-empty and the normalised token decodes. */
  lemma GateAgreesWithVerify(header: Option<string>, decodes: string -> bool)
    ensures Wiki.VerifyToken(header, (t: string) => AnswerOf(Auth.Verify(Given(t), decodes))).accepted <==>
      header.Some? && header.value != "" && decodes(Wiki.NormalizeToken(header.value))
  {
  }

  /** The JSON body the content service receives from a create call: the title and the
      content keys, the content as null when the form had none. */
  function CreateBodyOf(call: Web.WikiCall): (b: Wiki.CreateBody)
    requires call.CreateCall?
    ensures b.Object? && b.title == Given(call.title) && b.catalogId.Absent? && b.otherKeys == 0
    ensures b.content == (if call.content.Some? then Given(call.content.value) else Null)
  {
    Wiki.Object(Given(call.title),
                if call.content.Some? then Given(call.content.value) else Null,
                Absent, 0)
  }

  /** A create call built by the front end is never refused as empty JSON, skips the
      catalog check, and stores the title the user typed rather than the default. */
  lemma FormCreateIsWellFormed(token: string, title: Option<string>, content: Option<string>, c: Web.WikiCall)
    requires c in Web.CreatePageForm(Some(token), title, content).calls
    ensures c.CreateCall? && Wiki.IsTruthy(CreateBodyOf(c)) && !Wiki.ChecksCatalog(CreateBodyOf(c))
    ensures GetOr(CreateBodyOf(c).title, Wiki.DefaultTitle) == Some(title.value)
  {
  }

  /** A client of the identity service, using only its contracts: a user registers
      once, a second registration of the name is refused, and login issues claims for
      the right password only. */
  method SignUpAndLogIn()
  {
    var users := new Auth.UserStore();
    var registered := users.Register(Given("alice"), Given("pw1"), true);
    assert registered == Auth.Reply(200, Auth.RegisteredOk) && users.users == [Auth.User("alice", "pw1")];
    var again := users.Register(Given("alice"), Given("other"), true);
    assert again == Auth.Reply(400, Auth.UserExists) && users.users == [Auth.User("alice", "pw1")];

    var login := Auth.Login(users.users, Given("alice"), Given("pw1"), 1000);
    assert login == Auth.Issued(Auth.Claims("alice", 4600));
    var wrong := Auth.Login(users.users, Given("alice"), Given("pw2"), 1000);
    assert wrong == Auth.Rejected(401, Auth.InvalidCredentials);
  }

  /** A client of the content service, using only its contracts: with a token the
      identity service accepts, create, read and delete a page, and see the refusals a
      missing header and an unknown catalog get. */
  method WriteReadDelete()
  {
    // the identity service accepts exactly the token "T"
    var remote := (t: string) => if t == "T" then Wiki.Status(200) else Wiki.Status(401);
    RawTokenUnchanged("T");
    var intro := Wiki.Object(Given("Intro"), Absent, Absent, 0);
    var row := Wiki.Page(1, "Intro", Some(""), None, false);

    var store := new Wiki.PageStore(map[]);
    var refused, _ := store.CreatePage(None, remote, intro, true);
    assert refused == 401 && store.pages == [];

    var created, id := store.CreatePage(Some("T"), remote, intro, true);
    assert created == 200 && id == Some(1) && store.pages == [row];

    var dangling, _ := store.CreatePage(Some("T"), remote, Wiki.Object(Given("X"), Absent, Given(999), 0), true);
    assert dangling == 400 && store.pages == [row];

    var got, page := store.GetPage(Some("T"), remote, 1);
    assert got == 200 && page == Some(row);

    var deleted := store.DeletePage(Some("T"), remote, 1, true);
    assert deleted == 200 && store.pages == [];
    var gone, _ := store.GetPage(Some("T"), remote, 1);
    assert gone == 404;
  }
}
