/** The JSON API handlers (src/routes/api.ts). Each handler is split where it
    awaits the service: a plan (answer at once, or call the service) and a reply
    computed from the service's outcome. PUT and DELETE are also wired, as
    methods, to the service object and the redirect cache. */
module Api {
  import opened Wrappers
  import opened Validate
  import opened UrlService
  import Auth
  import Redirect

  /** A response: a success status (its body is the service's result) or an
      error status with its `{error}` message. */
  datatype Reply = Ok(status: nat) | Error(status: nat, message: string)

  /** The service call a handler makes. */
  datatype ServiceCall =
    | ListByEmailAsAdmin(email: string)
    | ListByUser(owner: Option<string>)
    | GetByCode(code: string)
    | CreateUrl(title: string, longUrl: string, expiresAt: Option<int>, createdBy: Option<string>)
    | UpdateUrl(input: UpdateInput, requester: Option<string>, isAdmin: bool)
    | RemoveUrl(code: string, requester: Option<string>, isAdmin: bool)

  /** What a handler does before awaiting anything. */
  datatype Plan = Respond(reply: Reply) | Call(call: ServiceCall)

  /** A reply and the code whose redirect-cache entry is invalidated before it is sent. */
  datatype Handled = Handled(reply: Reply, invalidate: Option<string>)

  // ----- GET /url -----

  /** `String(req.query.email || '')`. */
  function QueryEmail(q: Field): string {
    if Truthy(q) then q.s else ""
  }

  function ListPlan(d: Auth.Decision, emailQuery: Field): Plan {
    if d.isAdmin then
      var email := QueryEmail(emailQuery);
      if email == "" then Respond(Error(400, "email is required for admin listing"))
      else Call(ListByEmailAsAdmin(email))
    else Call(ListByUser(d.userEmail))
  }

  /** The answer once the listing has run (or thrown). */
  function ListReply<T>(r: Result<T>): Reply {
    if r.Success? then Ok(200) else Error(500, "Server error")
  }

  /** An admin must name whose links to list; everybody else lists their own. */
  lemma ListRules(d: Auth.Decision, emailQuery: Field)
    ensures d.isAdmin && !Truthy(emailQuery) ==>
      ListPlan(d, emailQuery) == Respond(Error(400, "email is required for admin listing"))
    ensures d.isAdmin && Truthy(emailQuery) ==> ListPlan(d, emailQuery) == Call(ListByEmailAsAdmin(emailQuery.s))
    ensures !d.isAdmin ==> ListPlan(d, emailQuery) == Call(ListByUser(d.userEmail))
  {
  }

  /** A listing that throws is a 500; one that succeeds a 200. */
  lemma ListReplyRule(r: Result<seq<ShortUrl>>)
    ensures ListReply(r).status == 500 <==> r.Failure?
    ensures ListReply(r).status == 200 <==> r.Success?
  {
  }

  // ----- GET /url/:code -----

  function GetPlan(code: string): Plan {
    if !IsCodeValid(code) then Respond(Error(400, "invalid code")) else Call(GetByCode(code))
  }

  function GetReply(d: Auth.Decision, item: Option<ShortUrl>): Reply {
    if item.None? then Error(404, "not found")
    else if !d.isAdmin && d.userEmail != Some(item.value.createdBy) then Error(403, "forbidden")
    else Ok(200)
  }

  /** An invalid code is refused before the store is asked; a missing record is
      a 404 for anybody (existence before ownership); an existing one is shown
      exactly to an admin or its creator. */
  lemma GetRules(d: Auth.Decision, code: string, item: Option<ShortUrl>)
    ensures GetPlan(code).Respond? <==> !IsCodeValid(code)
    ensures GetReply(d, None) == Error(404, "not found")
    ensures item.Some? ==>
      (GetReply(d, item) == Ok(200) <==> d.isAdmin || d.userEmail == Some(item.value.createdBy))
    ensures item.Some? && GetReply(d, item) != Ok(200) ==> GetReply(d, item) == Error(403, "forbidden")
  {
  }

  // ----- POST /url -----

  /** The fields of a POST body. */
  datatype PostBody = PostBody(title: Field, longUrl: Field, expiresAt: Field, email: Field)

  /** `req.adminToken ? (email || 'system@local') : req.userEmail`. */
  function CreatedBy(adminToken: bool, email: Field, d: Auth.Decision): Option<string> {
    if adminToken then Some(if Truthy(email) then email.s else "system@local") else d.userEmail
  }

  function PostPlan(body: PostBody, adminToken: bool, d: Auth.Decision, parseDate: DateParser, parseUrl: UrlParser): Plan {
    if IsInvalidDate(body.expiresAt, parseDate) then Respond(Error(400, "invalid expiresAt"))
    else if !Truthy(body.title) || !Truthy(body.longUrl) then Respond(Error(400, "label and longUrl are required"))
    else if !IsValidHttpUrl(parseUrl, body.longUrl.s) then Respond(Error(400, "invalid longUrl"))
    else Call(CreateUrl(body.title.s, body.longUrl.s, ParseOptionalDate(body.expiresAt, parseDate),
                        CreatedBy(adminToken, body.email, d)))
  }

  function PostReply(r: Result<ShortUrl>): Reply {
    if r.Success? then Ok(201)
    else if r.error == "could not generate unique code" then Error(409, r.error)
    else Error(500, "Server error")
  }

  /** The checks run in order (date, presence, URL) and the service is called
      exactly when all pass. */
  lemma PostValidationOrder(body: PostBody, adminToken: bool, d: Auth.Decision, parseDate: DateParser, parseUrl: UrlParser)
    ensures IsInvalidDate(body.expiresAt, parseDate) ==>
      PostPlan(body, adminToken, d, parseDate, parseUrl) == Respond(Error(400, "invalid expiresAt"))
    ensures !IsInvalidDate(body.expiresAt, parseDate) && (!Truthy(body.title) || !Truthy(body.longUrl)) ==>
      PostPlan(body, adminToken, d, parseDate, parseUrl) == Respond(Error(400, "label and longUrl are required"))
    ensures PostPlan(body, adminToken, d, parseDate, parseUrl).Call?
        <==> (&& !IsInvalidDate(body.expiresAt, parseDate)
              && Truthy(body.title) && Truthy(body.longUrl)
              && IsValidHttpUrl(parseUrl, body.longUrl.s))
    ensures PostPlan(body, adminToken, d, parseDate, parseUrl).Respond? ==>
      PostPlan(body, adminToken, d, parseDate, parseUrl).reply.status == 400
  {
  }

  /** Only the admin-token flag lets the body choose `createdBy` (falling back to
      'system@local'); otherwise, for group admins too, it is the caller's identity. */
  lemma CreatedByRule(body: PostBody, adminToken: bool, d: Auth.Decision, parseDate: DateParser, parseUrl: UrlParser)
    requires PostPlan(body, adminToken, d, parseDate, parseUrl).Call?
    ensures var c := PostPlan(body, adminToken, d, parseDate, parseUrl).call;
      && c.CreateUrl?
      && (!adminToken ==> c.createdBy == d.userEmail)
      && (adminToken && Truthy(body.email) ==> c.createdBy == Some(body.email.s))
      && (adminToken && !Truthy(body.email) ==> c.createdBy == Some("system@local"))
      && c.expiresAt == ParseOptionalDate(body.expiresAt, parseDate)
  {
  }

  /** Success is 201, exhausted retries 409, anything else 500. */
  lemma PostStatus(r: Result<ShortUrl>)
    ensures PostReply(r).status == 201 <==> r.Success?
    ensures PostReply(r).status == 409 <==> r == Failure("could not generate unique code")
    ensures PostReply(r).status == 500 <==> r.Failure? && r.error != "could not generate unique code"
  {
  }

  /** A non-empty label made only of whitespace passes the presence check but
      not the service's trim, so the request ends in a 500 rather than a 400. */
  lemma BlankLabelIsServerError(body: PostBody, adminToken: bool, d: Auth.Decision, parseDate: DateParser,
                                parseUrl: UrlParser, store: Store, createdBy: string,
                                draws: seq<seq<nat>>, faults: seq<bool>, now: int)
    requires WellDrawn(draws) && |faults| == MAX_ATTEMPTS
    requires PostPlan(body, adminToken, d, parseDate, parseUrl).Call?
    requires forall i | 0 <= i < |body.title.s| :: JsString.IsWhitespace(body.title.s[i])
    ensures var c := PostPlan(body, adminToken, d, parseDate, parseUrl).call;
      var input := CreateInput(c.title, c.longUrl, c.expiresAt, createdBy);
      PostReply(CreateOutcome(store, input, parseUrl, draws, faults, now)) == Error(500, "Server error")
  {
    var c := PostPlan(body, adminToken, d, parseDate, parseUrl).call;
    JsString.TrimEmptyIffBlank(c.title);
  }

  // ----- PUT /url -----

  /** The fields of a PUT body. */
  datatype PutBody = PutBody(code: Field, title: Field, longUrl: Field, expiresAt: Field)

  /** The `expiresAt` handed to `update`: undefined stays undefined, anything
      else becomes what `parseOptionalDate` made of it. */
  function ExpiryPatch(expiresAt: Field, parseDate: DateParser): Patch<Option<int>> {
    if expiresAt == Missing then Keep else SetTo(ParseOptionalDate(expiresAt, parseDate))
  }

  /** `req.isAdmin ? 'admin@local' : req.userEmail`. A non-admin without an
      identity never gets a record written (`AnonymousCannotUpdate`), so the
      empty placeholder is never stored. */
  function UpdatedBy(d: Auth.Decision): string {
    if d.isAdmin then "admin@local" else d.userEmail.GetOr("")
  }

  function PutPlan(body: PutBody, d: Auth.Decision, parseDate: DateParser, parseUrl: UrlParser): Plan {
    if !Truthy(body.code) || !IsCodeValid(body.code.s) then Respond(Error(400, "invalid code"))
    else if body.longUrl != Missing && !IsValidHttpUrl(parseUrl, Coerce(body.longUrl)) then Respond(Error(400, "invalid longUrl"))
    else if IsInvalidDate(body.expiresAt, parseDate) then Respond(Error(400, "invalid expiresAt"))
    else
      var title := if body.title.Text? then Some(body.title.s) else None;
      var input := UpdateInput(body.code.s, title, body.longUrl, ExpiryPatch(body.expiresAt, parseDate), UpdatedBy(d));
      Call(UpdateUrl(input, d.userEmail, d.isAdmin))
  }

  function PutReply(code: string, r: Result<Option<ShortUrl>>): Handled {
    match r
    case Success(None) => Handled(Error(404, "not found"), None)
    case Success(Some(_)) => Handled(Ok(200), Some(code))
    case Failure(msg) =>
      if msg == "forbidden" then Handled(Error(403, "forbidden"), None)
      else if msg == "invalid longUrl" then Handled(Error(400, "invalid longUrl"), None)
      else Handled(Error(500, "Server error"), None)
  }

  /** What PUT forwards: an omitted date is left alone, '' and null clear it, a
      parsed date sets it; admins update as 'admin@local', others as themselves. */
  lemma PutForwarding(body: PutBody, d: Auth.Decision, parseDate: DateParser, parseUrl: UrlParser)
    requires PutPlan(body, d, parseDate, parseUrl).Call?
    ensures var c := PutPlan(body, d, parseDate, parseUrl).call;
      && c.UpdateUrl? && c.input.code == body.code.s && IsCodeValid(c.input.code)
      && (body.expiresAt == Missing ==> c.input.expiresAt == Keep)
      && (body.expiresAt == Null || body.expiresAt == Text("") ==> c.input.expiresAt == SetTo(None))
      && (body.expiresAt.Text? && body.expiresAt.s != "" ==> c.input.expiresAt == SetTo(parseDate(body.expiresAt.s)))
      && (c.input.expiresAt.SetTo? && c.input.expiresAt.value.Some? ==> c.input.expiresAt == SetTo(parseDate(body.expiresAt.s)))
      && (d.isAdmin ==> c.input.updatedBy == "admin@local")
      && (!d.isAdmin && d.userEmail.Some? ==> c.input.updatedBy == d.userEmail.value)
      && c.requester == d.userEmail && c.isAdmin == d.isAdmin
  {
  }

  /** PUT refuses a bad code, then a bad URL, then a bad date, each with a 400
      and no service call. */
  lemma PutValidation(body: PutBody, d: Auth.Decision, parseDate: DateParser, parseUrl: UrlParser)
    ensures !Truthy(body.code) || !IsCodeValid(body.code.s) ==>
      PutPlan(body, d, parseDate, parseUrl) == Respond(Error(400, "invalid code"))
    ensures PutPlan(body, d, parseDate, parseUrl).Call?
        <==> (&& Truthy(body.code) && IsCodeValid(body.code.s)
              && (body.longUrl == Missing || IsValidHttpUrl(parseUrl, Coerce(body.longUrl)))
              && !IsInvalidDate(body.expiresAt, parseDate))
    ensures PutPlan(body, d, parseDate, parseUrl).Respond? ==> PutPlan(body, d, parseDate, parseUrl).reply.status == 400
  {
  }

  /** The cache entry is invalidated exactly after a successful update, which is a
      200; a null update is a 404, and errors map to 403, 400 or 500. */
  lemma PutOutcomes(code: string, r: Result<Option<ShortUrl>>)
    ensures PutReply(code, r).invalidate == Some(code) <==> r.Success? && r.value.Some?
    ensures PutReply(code, r).invalidate.None? <==> !(r.Success? && r.value.Some?)
    ensures r.Success? && r.value.Some? ==> PutReply(code, r).reply == Ok(200)
    ensures r == Success(None) ==> PutReply(code, r).reply == Error(404, "not found")
    ensures r == Failure("forbidden") ==> PutReply(code, r).reply.status == 403
    ensures r == Failure("invalid longUrl") ==> PutReply(code, r).reply.status == 400
    ensures r.Failure? && r.error != "forbidden" && r.error != "invalid longUrl" ==>
      PutReply(code, r).reply == Error(500, "Server error")
  {
  }

  // ----- DELETE /url -----

  function DeletePlan(code: Field, d: Auth.Decision): Plan {
    if !Truthy(code) || !IsCodeValid(code.s) then Respond(Error(400, "invalid code"))
    else Call(RemoveUrl(code.s, d.userEmail, d.isAdmin))
  }

  function DeleteReply(code: string, r: Result<bool>): Handled {
    match r
    case Success(true) => Handled(Ok(204), Some(code))
    case Success(false) => Handled(Error(404, "not found"), None)
    case Failure(msg) =>
      if msg == "forbidden" then Handled(Error(403, "forbidden"), None)
      else Handled(Error(500, "Server error"), None)
  }

  /** The cache entry is invalidated exactly after a successful removal, which is
      a 204; false is a 404, 'forbidden' a 403 and any other error a 500. */
  lemma DeleteOutcomes(code: string, r: Result<bool>)
    ensures DeleteReply(code, r).invalidate == Some(code) <==> r == Success(true)
    ensures DeleteReply(code, r).invalidate.None? <==> r != Success(true)
    ensures r == Success(true) ==> DeleteReply(code, r).reply == Ok(204)
    ensures r == Success(false) ==> DeleteReply(code, r).reply == Error(404, "not found")
    ensures r == Failure("forbidden") ==> DeleteReply(code, r).reply == Error(403, "forbidden")
    ensures r.Failure? && r.error != "forbidden" ==> DeleteReply(code, r).reply == Error(500, "Server error")
  {
  }

  /** A DELETE with a missing or invalid code is a 400 and calls nothing; else
      the caller's identity and admin flag go to `remove`. */
  lemma DeleteValidation(code: Field, d: Auth.Decision)
    ensures DeletePlan(code, d).Respond? <==> !Truthy(code) || !IsCodeValid(code.s)
    ensures DeletePlan(code, d).Call? ==> DeletePlan(code, d).call == RemoveUrl(code.s, d.userEmail, d.isAdmin)
  {
  }

  /** A rejected database call behind PUT or DELETE is a 500 and leaves the
      redirect cache alone; a failed lookup is one whatever the request. */
  lemma StoreFailuresAreServerErrors(store: Store, input: UpdateInput, code: string,
                                     requester: Option<string>, isAdmin: bool, parse: UrlParser, fault: StoreFault)
    ensures var r := UpdateOutcome(store, input, requester, isAdmin, parse, fault);
      r == Failure(STORE_ERROR) ==> PutReply(input.code, r) == Handled(Error(500, "Server error"), None)
    ensures var r := RemoveOutcome(store, code, requester, isAdmin, fault);
      r == Failure(STORE_ERROR) ==> DeleteReply(code, r) == Handled(Error(500, "Server error"), None)
    ensures fault == ReadFails ==>
      PutReply(input.code, UpdateOutcome(store, input, requester, isAdmin, parse, fault)).reply.status == 500
    ensures fault == ReadFails ==>
      DeleteReply(code, RemoveOutcome(store, code, requester, isAdmin, fault)).reply.status == 500
    ensures fault != NoFault ==>
      PutReply(input.code, UpdateOutcome(store, input, requester, isAdmin, parse, fault)).invalidate.None?
    ensures fault != NoFault ==>
      DeleteReply(code, RemoveOutcome(store, code, requester, isAdmin, fault)).invalidate.None?
  {
  }

  // ----- wiring PUT and DELETE to the service and the cache -----

  /** The redirect cache after a handler's invalidation, if any. */
  function AfterInvalidation(c: Redirect.LruState, invalidate: Option<string>): Redirect.LruState {
    if invalidate.Some? then Redirect.LruDelete(c, invalidate.value) else c
  }

  /** `PUT /api/url` end to end. */
  method Put(svc: ShortUrlService, cache: Redirect.LRUCache, body: PutBody, d: Auth.Decision,
             parseDate: DateParser, parseUrl: UrlParser, fault: StoreFault) returns (reply: Reply)
    requires svc.Valid() && cache.Valid()
    modifies svc, cache
    ensures svc.Valid() && cache.Valid()
    ensures PutPlan(body, d, parseDate, parseUrl).Respond? ==>
      && reply == PutPlan(body, d, parseDate, parseUrl).reply
      && svc.records == old(svc.records) && cache.State() == old(cache.State())
    ensures PutPlan(body, d, parseDate, parseUrl).Call? ==>
      var c := PutPlan(body, d, parseDate, parseUrl).call;
      var r := UpdateOutcome(old(svc.records), c.input, c.requester, c.isAdmin, parseUrl, fault);
      var h := PutReply(c.input.code, r);
      && reply == h.reply
      && svc.records == (if r.Success? && r.value.Some? then old(svc.records)[c.input.code := r.value.value] else old(svc.records))
      && cache.State() == AfterInvalidation(old(cache.State()), h.invalidate)
  {
    var plan := PutPlan(body, d, parseDate, parseUrl);
    if plan.Respond? {
      return plan.reply;
    }
    var c := plan.call;
    var r := svc.Update(c.input, c.requester, c.isAdmin, parseUrl, fault);
    var h := PutReply(c.input.code, r);
    if h.invalidate.Some? {
      Redirect.InvalidateCacheFor(cache, h.invalidate.value);
    }
    reply := h.reply;
  }

  /** `DELETE /api/url` end to end. */
  method Delete(svc: ShortUrlService, cache: Redirect.LRUCache, code: Field, d: Auth.Decision, fault: StoreFault)
    returns (reply: Reply)
    requires svc.Valid() && cache.Valid()
    modifies svc, cache
    ensures svc.Valid() && cache.Valid()
    ensures DeletePlan(code, d).Respond? ==>
      && reply == DeletePlan(code, d).reply
      && svc.records == old(svc.records) && cache.State() == old(cache.State())
    ensures DeletePlan(code, d).Call? ==>
      var r := RemoveOutcome(old(svc.records), code.s, d.userEmail, d.isAdmin, fault);
      var h := DeleteReply(code.s, r);
      && reply == h.reply
      && svc.records == (if r == Success(true) then old(svc.records) - {code.s} else old(svc.records))
      && cache.State() == AfterInvalidation(old(cache.State()), h.invalidate)
  {
    var plan := DeletePlan(code, d);
    if plan.Respond? {
      return plan.reply;
    }
    var r := svc.Remove(code.s, d.userEmail, d.isAdmin, fault);
    var h := DeleteReply(code.s, r);
    if h.invalidate.Some? {
      Redirect.InvalidateCacheFor(cache, h.invalidate.value);
    }
    reply := h.reply;
  }

  /** After a successful PUT or DELETE, the next redirect for that code goes to
      the store instead of serving a stale cached entry. */
  lemma SuccessfulWriteRefreshesRedirect(c: Redirect.LruState, code: string, lookup: Redirect.Lookup, now: int)
    requires Redirect.CacheInv(c) && IsCodeValid(code)
    ensures Redirect.CacheInv(AfterInvalidation(c, Some(code)))
    ensures Redirect.Resolve(AfterInvalidation(c, Some(code)), code, lookup, now).lookedUp
  {
    Redirect.InvalidatedCodeIsLookedUp(c, code, lookup, now);
  }
}
