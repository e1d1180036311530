/** The URL registry (src/services/shortUrl.service.ts). The database table of
    short URLs is a map from code to record held by a `ShortUrlService` object;
    the unique constraint on `code` is the map's key. Randomness, the clock and
    store errors other than a duplicate code enter as parameters. */
module UrlService {
  import opened Wrappers
  import JsString
  import opened Validate
  import CodeGen

  /** A stored short URL. `title` is the column the source calls `label` (a
      reserved word here); timestamps are milliseconds since the epoch. */
  datatype ShortUrl = ShortUrl(
    code: string,
    title: string,
    longUrl: string,
    expiresAt: Option<int>,
    createdBy: string,
    updatedBy: string,
    clickCount: nat,
    lastAccessAt: Option<int>,
    createdAt: int)

  /** `CreateUrlInput`; an undefined or null `expiresAt` are both `None`. */
  datatype CreateInput = CreateInput(title: string, longUrl: string, expiresAt: Option<int>, createdBy: string)

  /** An optional field whose absence (`Keep`) differs from any value it may be set to. */
  datatype Patch<T> = Keep | SetTo(value: T)

  /** `UpdateUrlInput`. `label ?? existing` keeps on undefined and null alike (`None`);
      `longUrl` is validated whenever it is not undefined, so null is kept apart. */
  datatype UpdateInput = UpdateInput(
    code: string,
    title: Option<string>,
    longUrl: Field,
    expiresAt: Patch<Option<int>>,
    updatedBy: string)

  type Store = map<string, ShortUrl>

  /** How many inserts `create` tries before giving up. */
  const MAX_ATTEMPTS: nat := 5
  /** The length `create` asks `generateCode` for. */
  const CODE_LENGTH: nat := CodeGen.DEFAULT_LENGTH

  /** Each record sits under its own code, and that code is a valid short code. */
  ghost predicate StoreInv(store: Store) {
    forall k | k in store :: store[k].code == k && IsCodeValid(k)
  }

  /** The random indices each of the five attempts draws: six per attempt, each
      an index into the alphabet. */
  predicate WellDrawn(draws: seq<seq<nat>>) {
    |draws| == MAX_ATTEMPTS
    && forall i | 0 <= i < MAX_ATTEMPTS :: |draws[i]| == CODE_LENGTH && CodeGen.ValidDraws(draws[i])
  }

  /** The code attempt `i` generates. */
  function AttemptCode(draws: seq<seq<nat>>, i: nat): (code: string)
    requires WellDrawn(draws) && i < MAX_ATTEMPTS
    ensures |code| == CODE_LENGTH && IsCodeValid(code)
  {
    CodeGen.SpelledCodeIsValid(draws[i]);
    CodeGen.Spell(draws[i])
  }

  /** An insert goes through when its code is not taken and the store raises no
      other error (`fault`); `create` treats every failure as a conflict. */
  predicate InsertSucceeds(store: Store, code: string, fault: bool) {
    !fault && code !in store
  }

  /** The first attempt, from `from` on, whose insert goes through. */
  function FirstSuccess(store: Store, draws: seq<seq<nat>>, faults: seq<bool>, from: nat): Option<nat>
    requires WellDrawn(draws) && |faults| == MAX_ATTEMPTS && from <= MAX_ATTEMPTS
    decreases MAX_ATTEMPTS - from
  {
    if from == MAX_ATTEMPTS then None
    else if InsertSucceeds(store, AttemptCode(draws, from), faults[from]) then Some(from)
    else FirstSuccess(store, draws, faults, from + 1)
  }

  /** The row `create` inserts: trimmed title, `expiresAt ?? null`, the creator as
      last updater; a new row has no clicks and no access yet. */
  function NewRecord(code: string, input: CreateInput, now: int): ShortUrl {
    ShortUrl(code, JsString.Trim(input.title), input.longUrl, input.expiresAt,
             input.createdBy, input.createdBy, 0, None, now)
  }

  /** The outcome of the insert loop alone: the first successful insert's
      record, or exhaustion. */
  function Attempted(store: Store, input: CreateInput, draws: seq<seq<nat>>, faults: seq<bool>, now: int): Result<ShortUrl>
    requires WellDrawn(draws) && |faults| == MAX_ATTEMPTS
  {
    match FirstSuccess(store, draws, faults, 0)
    case None => Failure("could not generate unique code")
    case Some(k) => Success(NewRecord(AttemptCode(draws, k), input, now))
  }

  /** How many inserts the loop issues. */
  function AttemptCount(store: Store, draws: seq<seq<nat>>, faults: seq<bool>): nat
    requires WellDrawn(draws) && |faults| == MAX_ATTEMPTS
  {
    match FirstSuccess(store, draws, faults, 0)
    case None => MAX_ATTEMPTS
    case Some(k) => k + 1
  }

  /** Whether `create` accepts its input: a label that is not blank and a web URL. */
  predicate CreateInputOk(input: CreateInput, parse: UrlParser) {
    JsString.Trim(input.title) != "" && IsValidHttpUrl(parse, input.longUrl)
  }

  /** What `create` returns or throws. */
  function CreateOutcome(store: Store, input: CreateInput, parse: UrlParser,
                         draws: seq<seq<nat>>, faults: seq<bool>, now: int): Result<ShortUrl>
    requires WellDrawn(draws) && |faults| == MAX_ATTEMPTS
  {
    if JsString.Trim(input.title) == "" then Failure("label is required")
    else if !IsValidHttpUrl(parse, input.longUrl) then Failure("invalid longUrl")
    else Attempted(store, input, draws, faults, now)
  }

  /** How many inserts `create` issues. */
  function InsertCount(store: Store, input: CreateInput, parse: UrlParser,
                       draws: seq<seq<nat>>, faults: seq<bool>): nat
    requires WellDrawn(draws) && |faults| == MAX_ATTEMPTS
  {
    if !CreateInputOk(input, parse) then 0 else AttemptCount(store, draws, faults)
  }

  /** For an accepted input, `create`'s outcome is the insert loop's, and a
      successful insert keeps the store invariant. */
  lemma LoopOutcome(store: Store, input: CreateInput, parse: UrlParser,
                    draws: seq<seq<nat>>, faults: seq<bool>, now: int)
    requires WellDrawn(draws) && |faults| == MAX_ATTEMPTS && CreateInputOk(input, parse)
    ensures var k := FirstSuccess(store, draws, faults, 0);
      && (k.Some? ==> CreateOutcome(store, input, parse, draws, faults, now)
                      == Success(NewRecord(AttemptCode(draws, k.value), input, now)))
      && (k.Some? ==> InsertCount(store, input, parse, draws, faults) == k.value + 1)
      && (k.None? ==> CreateOutcome(store, input, parse, draws, faults, now)
                      == Failure("could not generate unique code"))
      && (k.None? ==> InsertCount(store, input, parse, draws, faults) == MAX_ATTEMPTS)
    ensures StoreInv(store) && FirstSuccess(store, draws, faults, 0).Some? ==>
      var rec := NewRecord(AttemptCode(draws, FirstSuccess(store, draws, faults, 0).value), input, now);
      StoreInv(store[rec.code := rec])
  {
  }

  /** `FirstSuccess` finds exactly the earliest attempt whose insert goes
      through, and finds none exactly when every remaining attempt fails. */
  lemma {:induction false} FirstSuccessIsEarliest(store: Store, draws: seq<seq<nat>>, faults: seq<bool>, from: nat)
    requires WellDrawn(draws) && |faults| == MAX_ATTEMPTS && from <= MAX_ATTEMPTS
    ensures var k := FirstSuccess(store, draws, faults, from);
      && (k.Some? ==> from <= k.value < MAX_ATTEMPTS
                      && InsertSucceeds(store, AttemptCode(draws, k.value), faults[k.value]))
      && (k.Some? ==> forall j | from <= j < k.value :: !InsertSucceeds(store, AttemptCode(draws, j), faults[j]))
      && (k.None? <==> forall j | from <= j < MAX_ATTEMPTS :: !InsertSucceeds(store, AttemptCode(draws, j), faults[j]))
    decreases MAX_ATTEMPTS - from
  {
    if from < MAX_ATTEMPTS {
      FirstSuccessIsEarliest(store, draws, faults, from + 1);
    }
  }

  /** Validation precedes any insert: an empty trimmed label, then a non-web URL,
      fails. */
  lemma CreateValidatesFirst(store: Store, input: CreateInput, parse: UrlParser,
                             draws: seq<seq<nat>>, faults: seq<bool>, now: int)
    requires WellDrawn(draws) && |faults| == MAX_ATTEMPTS
    ensures JsString.Trim(input.title) == "" ==>
      CreateOutcome(store, input, parse, draws, faults, now) == Failure("label is required")
    ensures JsString.Trim(input.title) != "" && !IsValidHttpUrl(parse, input.longUrl) ==>
      CreateOutcome(store, input, parse, draws, faults, now) == Failure("invalid longUrl")
  {
  }

  /** No insert is issued exactly when validation fails. */
  lemma NoInsertIffInvalid(store: Store, input: CreateInput, parse: UrlParser,
                           draws: seq<seq<nat>>, faults: seq<bool>)
    requires WellDrawn(draws) && |faults| == MAX_ATTEMPTS
    ensures InsertCount(store, input, parse, draws, faults) == 0 <==>
      (JsString.Trim(input.title) == "" || !IsValidHttpUrl(parse, input.longUrl))
  {
    var valid := JsString.Trim(input.title) != "" && IsValidHttpUrl(parse, input.longUrl);
    if valid {
      var k := FirstSuccess(store, draws, faults, 0);
      assert InsertCount(store, input, parse, draws, faults) == if k.None? then MAX_ATTEMPTS else k.value + 1;
    }
  }

  /** A created record carries a fresh, valid six-character code and the input's
      fields as the insert writes them. */
  lemma CreatedRecord(store: Store, input: CreateInput, parse: UrlParser,
                      draws: seq<seq<nat>>, faults: seq<bool>, now: int)
    requires WellDrawn(draws) && |faults| == MAX_ATTEMPTS
    ensures var r := CreateOutcome(store, input, parse, draws, faults, now);
      r.Success? ==>
        && r.value.code !in store
        && |r.value.code| == CODE_LENGTH && IsCodeValid(r.value.code)
        && r.value.title == JsString.Trim(input.title) && r.value.title != ""
        && r.value.longUrl == input.longUrl && IsValidHttpUrl(parse, r.value.longUrl)
        && r.value.expiresAt == input.expiresAt
        && r.value.createdBy == input.createdBy && r.value.updatedBy == input.createdBy
        && r.value.clickCount == 0 && r.value.createdAt == now
  {
    FirstSuccessIsEarliest(store, draws, faults, 0);
  }

  /** Creating keeps the store invariant. */
  lemma CreateKeepsInv(store: Store, input: CreateInput, parse: UrlParser,
                       draws: seq<seq<nat>>, faults: seq<bool>, now: int)
    requires StoreInv(store) && WellDrawn(draws) && |faults| == MAX_ATTEMPTS
    ensures var r := CreateOutcome(store, input, parse, draws, faults, now);
      r.Success? ==> StoreInv(store[r.value.code := r.value])
  {
    CreatedRecord(store, input, parse, draws, faults, now);
  }

  /** Two failed inserts followed by a successful one: three inserts, and the
      record carries the third code. */
  lemma RetryAfterTwoConflicts(store: Store, input: CreateInput, parse: UrlParser,
                               draws: seq<seq<nat>>, faults: seq<bool>, now: int)
    requires WellDrawn(draws) && |faults| == MAX_ATTEMPTS
    requires JsString.Trim(input.title) != "" && IsValidHttpUrl(parse, input.longUrl)
    requires !InsertSucceeds(store, AttemptCode(draws, 0), faults[0])
    requires !InsertSucceeds(store, AttemptCode(draws, 1), faults[1])
    requires InsertSucceeds(store, AttemptCode(draws, 2), faults[2])
    ensures InsertCount(store, input, parse, draws, faults) == 3
    ensures CreateOutcome(store, input, parse, draws, faults, now)
         == Success(NewRecord(AttemptCode(draws, 2), input, now))
  {
  }

  /** `create` gives up exactly when the input is valid and all five inserts fail. */
  lemma ExhaustedIff(store: Store, input: CreateInput, parse: UrlParser,
                     draws: seq<seq<nat>>, faults: seq<bool>, now: int)
    requires WellDrawn(draws) && |faults| == MAX_ATTEMPTS
    ensures CreateOutcome(store, input, parse, draws, faults, now) == Failure("could not generate unique code")
        <==> (&& JsString.Trim(input.title) != ""
              && IsValidHttpUrl(parse, input.longUrl)
              && forall j | 0 <= j < MAX_ATTEMPTS :: !InsertSucceeds(store, AttemptCode(draws, j), faults[j]))
    ensures CreateOutcome(store, input, parse, draws, faults, now) == Failure("could not generate unique code")
        ==> InsertCount(store, input, parse, draws, faults) == MAX_ATTEMPTS
  {
    FirstSuccessIsEarliest(store, draws, faults, 0);
  }

  /** Whether `requesterEmail` may change `rec`: admins always, others when they created it. */
  predicate MayModify(rec: ShortUrl, requester: Option<string>, isAdmin: bool) {
    isAdmin || requester == Some(rec.createdBy)
  }

  /** The row `update` writes: absent title and URL keep theirs, `expiresAt` is
      replaced unless absent (null clears it), `updatedBy` always comes from the input. */
  function Merge(existing: ShortUrl, input: UpdateInput): ShortUrl {
    existing.(
      title := input.title.GetOr(existing.title),
      longUrl := if input.longUrl.Text? then input.longUrl.s else existing.longUrl,
      expiresAt := match input.expiresAt { case Keep => existing.expiresAt case SetTo(e) => e },
      updatedBy := input.updatedBy)
  }

  /** Which database call of `update` or `remove` rejects: the lookup, the
      write, or neither. */
  datatype StoreFault = NoFault | ReadFails | WriteFails

  /** The message of a rejected database call; it is neither of the service's own. */
  const STORE_ERROR: string := "database request failed"

  /** What `update` returns (`None` for null) or throws. */
  function UpdateOutcome(store: Store, input: UpdateInput, requester: Option<string>,
                         isAdmin: bool, parse: UrlParser, fault: StoreFault): Result<Option<ShortUrl>>
  {
    if fault == ReadFails then Failure(STORE_ERROR)
    else if input.code !in store then Success(None)
    else if !MayModify(store[input.code], requester, isAdmin) then Failure("forbidden")
    else if input.longUrl != Missing && !IsValidHttpUrl(parse, Coerce(input.longUrl)) then Failure("invalid longUrl")
    else if fault == WriteFails then Failure(STORE_ERROR)
    else Success(Some(Merge(store[input.code], input)))
  }

  /** The decision order of `update`: a failed lookup rejects first; then a
      missing code is null whatever else holds, ownership is checked before the
      URL, and a write happens exactly for an existing, permitted record with an
      acceptable URL when the database accepts it. */
  lemma UpdateOrder(store: Store, input: UpdateInput, requester: Option<string>, isAdmin: bool,
                    parse: UrlParser, fault: StoreFault)
    ensures fault == ReadFails ==> UpdateOutcome(store, input, requester, isAdmin, parse, fault) == Failure(STORE_ERROR)
    ensures fault != ReadFails && input.code !in store ==>
      UpdateOutcome(store, input, requester, isAdmin, parse, fault) == Success(None)
    ensures fault != ReadFails && input.code in store && !MayModify(store[input.code], requester, isAdmin) ==>
      UpdateOutcome(store, input, requester, isAdmin, parse, fault) == Failure("forbidden")
    ensures UpdateOutcome(store, input, requester, isAdmin, parse, fault).Success?
         && UpdateOutcome(store, input, requester, isAdmin, parse, fault).value.Some?
        <==> (&& fault == NoFault
              && input.code in store
              && MayModify(store[input.code], requester, isAdmin)
              && (input.longUrl == Missing || IsValidHttpUrl(parse, Coerce(input.longUrl))))
    ensures UpdateOutcome(store, input, requester, isAdmin, parse, fault) == Failure(STORE_ERROR)
        <==> (|| fault == ReadFails
              || (&& fault == WriteFails
                  && input.code in store
                  && MayModify(store[input.code], requester, isAdmin)
                  && (input.longUrl == Missing || IsValidHttpUrl(parse, Coerce(input.longUrl)))))
  {
  }

  /** A requester with no identity who is not an admin never changes an existing record. */
  lemma AnonymousCannotUpdate(store: Store, input: UpdateInput, parse: UrlParser, fault: StoreFault)
    requires input.code in store
    ensures fault != ReadFails ==> UpdateOutcome(store, input, None, false, parse, fault) == Failure("forbidden")
    ensures !UpdateOutcome(store, input, None, false, parse, fault).Success?
  {
  }

  /** The merge rules field by field. */
  lemma MergeRules(existing: ShortUrl, input: UpdateInput)
    ensures var m := Merge(existing, input);
      && (input.title.None? ==> m.title == existing.title)
      && (input.title.Some? ==> m.title == input.title.value)
      && (!input.longUrl.Text? ==> m.longUrl == existing.longUrl)
      && (input.longUrl.Text? ==> m.longUrl == input.longUrl.s)
      && (input.expiresAt == Keep ==> m.expiresAt == existing.expiresAt)
      && (input.expiresAt == SetTo(None) ==> m.expiresAt == None)
      && (input.expiresAt.SetTo? ==> m.expiresAt == input.expiresAt.value)
      && m.updatedBy == input.updatedBy
      && m.code == existing.code && m.createdBy == existing.createdBy
      && m.clickCount == existing.clickCount && m.lastAccessAt == existing.lastAccessAt
      && m.createdAt == existing.createdAt
  {
  }

  /** Applying the same update twice writes what applying it once did. */
  lemma MergeIdempotent(existing: ShortUrl, input: UpdateInput)
    ensures Merge(Merge(existing, input), input) == Merge(existing, input)
  {
  }

  /** An update keeps the store invariant: the code and key do not move. */
  lemma UpdateKeepsInv(store: Store, input: UpdateInput, requester: Option<string>, isAdmin: bool,
                       parse: UrlParser, fault: StoreFault)
    requires StoreInv(store)
    ensures var r := UpdateOutcome(store, input, requester, isAdmin, parse, fault);
      r.Success? && r.value.Some? ==>
        r.value.value.code == input.code && StoreInv(store[input.code := r.value.value])
  {
  }

  /** What `remove` returns or throws. */
  function RemoveOutcome(store: Store, code: string, requester: Option<string>, isAdmin: bool,
                         fault: StoreFault): Result<bool> {
    if fault == ReadFails then Failure(STORE_ERROR)
    else if code !in store then Success(false)
    else if !MayModify(store[code], requester, isAdmin) then Failure("forbidden")
    else if fault == WriteFails then Failure(STORE_ERROR)
    else Success(true)
  }

  /** `remove` answers true exactly for an existing record the requester may
      change when the database accepts the delete, false exactly for a missing
      code, 'forbidden' exactly for someone else's record, and rejects with the
      database's error when the lookup fails or a permitted delete does. */
  lemma RemoveIff(store: Store, code: string, requester: Option<string>, isAdmin: bool, fault: StoreFault)
    ensures RemoveOutcome(store, code, requester, isAdmin, fault) == Success(true)
        <==> fault == NoFault && code in store && MayModify(store[code], requester, isAdmin)
    ensures RemoveOutcome(store, code, requester, isAdmin, fault) == Success(false)
        <==> fault != ReadFails && code !in store
    ensures RemoveOutcome(store, code, requester, isAdmin, fault) == Failure("forbidden")
        <==> fault != ReadFails && code in store && !MayModify(store[code], requester, isAdmin)
    ensures RemoveOutcome(store, code, requester, isAdmin, fault) == Failure(STORE_ERROR)
        <==> fault == ReadFails || (fault == WriteFails && code in store && MayModify(store[code], requester, isAdmin))
  {
  }

  /** A record after one more redirect: one more click, last access now. */
  function Bumped(rec: ShortUrl, now: int): ShortUrl {
    rec.(clickCount := rec.clickCount + 1, lastAccessAt := Some(now))
  }

  /** The table after `incrementStatsOnRedirect(code)`: the record bumped, or
      nothing changed when the code is missing (the update throws). */
  function AfterRedirect(store: Store, code: string, now: int): Store {
    if code in store then store[code := Bumped(store[code], now)] else store
  }

  /** A redirect bumps exactly its own record by one click, checks no ownership,
      keeps the store invariant, and changes nothing for a missing code. */
  lemma AfterRedirectBumpsOne(store: Store, code: string, now: int)
    requires StoreInv(store)
    ensures var s := AfterRedirect(store, code, now);
      && StoreInv(s)
      && s.Keys == store.Keys
      && (forall k | k in store && k != code :: s[k] == store[k])
      && (code in store ==> s[code].clickCount == store[code].clickCount + 1)
      && (code in store ==> s[code].lastAccessAt == Some(now))
      && (code in store ==> s[code].(clickCount := store[code].clickCount, lastAccessAt := store[code].lastAccessAt) == store[code])
  {
  }

  /** A record after a redirect at each of the given instants, in order. */
  function BumpedAt(rec: ShortUrl, times: seq<int>): ShortUrl {
    if times == [] then rec else Bumped(BumpedAt(rec, times[..|times| - 1]), times[|times| - 1])
  }

  /** Each redirect adds exactly one click and touches nothing but the click count
      and the last access time, which is the latest redirect's. */
  lemma {:induction false} BumpsAccumulate(rec: ShortUrl, times: seq<int>)
    ensures var r := BumpedAt(rec, times);
      && r.clickCount == rec.clickCount + |times|
      && r.lastAccessAt == (if times == [] then rec.lastAccessAt else Some(times[|times| - 1]))
      && r.(clickCount := rec.clickCount, lastAccessAt := rec.lastAccessAt) == rec
  {
    if times != [] {
      BumpsAccumulate(rec, times[..|times| - 1]);
    }
  }

  /** No record is listed before a newer one. */
  predicate NewestFirst(rs: seq<ShortUrl>) {
    forall i, j | 0 <= i < j < |rs| :: rs[i].createdAt >= rs[j].createdAt
  }

  /** No code is listed twice. */
  predicate DistinctCodes(rs: seq<ShortUrl>) {
    forall i, j | 0 <= i < j < |rs| :: rs[i].code != rs[j].code
  }

  /** `findMany({where: {createdBy: email}, orderBy: {createdAt: 'desc'}})`: the
      records created by `email`, each once, newest first. */
  ghost predicate IsListing(store: Store, email: string, rs: seq<ShortUrl>) {
    && (forall r | r in rs :: r.code in store && store[r.code] == r && r.createdBy == email)
    && (forall k | k in store && store[k].createdBy == email :: store[k] in rs)
    && NewestFirst(rs)
    && DistinctCodes(rs)
  }

  /** `rs` with `rec` placed before the first record no newer than it. */
  function InsertNewestFirst(rs: seq<ShortUrl>, rec: ShortUrl): (r: seq<ShortUrl>)
    ensures |r| == |rs| + 1
    ensures forall x :: x in r <==> x in rs || x == rec
  {
    if rs == [] || rec.createdAt >= rs[0].createdAt then [rec] + rs
    else [rs[0]] + InsertNewestFirst(rs[1..], rec)
  }

  /** Placing a record keeps the listing newest first. */
  lemma {:induction false} InsertKeepsNewestFirst(rs: seq<ShortUrl>, rec: ShortUrl)
    requires NewestFirst(rs)
    ensures NewestFirst(InsertNewestFirst(rs, rec))
  {
    var r := InsertNewestFirst(rs, rec);
    if rs == [] || rec.createdAt >= rs[0].createdAt {
      forall i, j | 0 <= i < j < |r| ensures r[i].createdAt >= r[j].createdAt {
        if i == 0 { assert r[j] == rs[j - 1]; if j > 1 { assert rs[0].createdAt >= rs[j - 1].createdAt; } }
        else { assert r[i] == rs[i - 1] && r[j] == rs[j - 1]; }
      }
    } else {
      var tail := rs[1..];
      assert NewestFirst(tail) by {
        forall i, j | 0 <= i < j < |tail| ensures tail[i].createdAt >= tail[j].createdAt {
          assert tail[i] == rs[i + 1] && tail[j] == rs[j + 1];
        }
      }
      InsertKeepsNewestFirst(tail, rec);
      var t := InsertNewestFirst(tail, rec);
      assert r == [rs[0]] + t;
      forall i, j | 0 <= i < j < |r| ensures r[i].createdAt >= r[j].createdAt {
        if i == 0 {
          var x := t[j - 1];
          assert x == r[j] && x in t;
          if x in tail {
            var k :| 0 <= k < |tail| && tail[k] == x;
            assert rs[k + 1] == x;
          }
        } else {
          assert r[i] == t[i - 1] && r[j] == t[j - 1];
        }
      }
    }
  }

  /** Placing a record whose code is not yet listed keeps the codes distinct. */
  lemma {:induction false} InsertKeepsCodesDistinct(rs: seq<ShortUrl>, rec: ShortUrl)
    requires DistinctCodes(rs)
    requires forall x | x in rs :: x.code != rec.code
    ensures DistinctCodes(InsertNewestFirst(rs, rec))
  {
    if rs != [] && rec.createdAt < rs[0].createdAt {
      var tail := rs[1..];
      assert DistinctCodes(tail) by {
        forall i, j | 0 <= i < j < |tail| ensures tail[i].code != tail[j].code {
          assert tail[i] == rs[i + 1] && tail[j] == rs[j + 1];
        }
      }
      InsertKeepsCodesDistinct(tail, rec);
      var r := InsertNewestFirst(tail, rec);
      forall x | x in r ensures x.code != rs[0].code {
        if x in tail {
          var j :| 0 <= j < |tail| && tail[j] == x;
          assert rs[j + 1] == x;
        }
      }
    }
  }

  /** Any two listings of the same records hold the same set of records. */
  lemma ListingIsUnique(store: Store, email: string, rs1: seq<ShortUrl>, rs2: seq<ShortUrl>)
    requires IsListing(store, email, rs1) && IsListing(store, email, rs2)
    ensures forall r :: r in rs1 <==> r in rs2
    ensures |rs1| == |rs2|
  {
    var s1 := set r | r in rs1;
    var s2 := set r | r in rs2;
    assert s1 == s2;
    DistinctCodesCard(rs1);
    DistinctCodesCard(rs2);
  }

  lemma {:induction false} DistinctCodesCard(rs: seq<ShortUrl>)
    requires DistinctCodes(rs)
    ensures |set r | r in rs| == |rs|
  {
    if rs != [] {
      var tail := rs[1..];
      assert DistinctCodes(tail) by {
        forall i, j | 0 <= i < j < |tail| ensures tail[i].code != tail[j].code {
          assert tail[i] == rs[i + 1] && tail[j] == rs[j + 1];
        }
      }
      DistinctCodesCard(tail);
      assert rs[0] !in tail;
      assert (set r | r in rs) == (set r | r in tail) + {rs[0]};
    }
  }

  /** `class ShortUrlService` over its table. */
  class ShortUrlService {
    var records: Store

    ghost predicate Valid()
      reads this
    {
      StoreInv(records)
    }

    /** An empty table. */
    constructor ()
      ensures Valid() && records == map[]
    {
      records := map[];
    }

    /** `getByCode`: `findUnique` on the code. */
    method GetByCode(code: string) returns (r: Option<ShortUrl>)
      requires Valid()
      ensures code in records ==> r == Some(records[code])
      ensures code !in records ==> r == None
      ensures r.Some? ==> r.value.code == code && IsCodeValid(code)
    {
      r := if code in records then Some(records[code]) else None;
    }

    /** `listByUser(email)` (and `listByEmailAsAdmin`, the same query). */
    method ListByUser(email: string) returns (rs: seq<ShortUrl>)
      requires Valid()
      ensures IsListing(records, email, rs)
    {
      var keys := records.Keys;
      rs := [];
      while keys != {}
        invariant keys <= records.Keys
        invariant forall r | r in rs :: r.code in records && records[r.code] == r && r.createdBy == email && r.code !in keys
        invariant forall k | k in records && k !in keys && records[k].createdBy == email :: records[k] in rs
        invariant NewestFirst(rs) && DistinctCodes(rs)
        decreases keys
      {
        var k :| k in keys;
        var rec := records[k];
        if rec.createdBy == email {
          InsertKeepsCodesDistinct(rs, rec);
          InsertKeepsNewestFirst(rs, rec);
          rs := InsertNewestFirst(rs, rec);
        }
        keys := keys - {k};
      }
    }

    /** A single insert with the unique constraint on `code`. */
    method TryInsert(rec: ShortUrl, fault: bool) returns (ok: bool)
      modifies this
      ensures ok == InsertSucceeds(old(records), rec.code, fault)
      ensures records == if ok then old(records)[rec.code := rec] else old(records)
    {
      ok := InsertSucceeds(records, rec.code, fault);
      if ok {
        records := records[rec.code := rec];
      }
    }

    /** `create`: validate, then up to five inserts with freshly generated codes. */
    method Create(input: CreateInput, parse: UrlParser, draws: seq<seq<nat>>, faults: seq<bool>, now: int)
      returns (r: Result<ShortUrl>, inserts: nat)
      requires Valid() && WellDrawn(draws) && |faults| == MAX_ATTEMPTS
      modifies this
      ensures Valid()
      ensures r == CreateOutcome(old(records), input, parse, draws, faults, now)
      ensures inserts == InsertCount(old(records), input, parse, draws, faults)
      ensures r.Success? ==> records == old(records)[r.value.code := r.value]
      ensures r.Failure? ==> records == old(records)
    {
      CreateValidatesFirst(records, input, parse, draws, faults, now);
      NoInsertIffInvalid(records, input, parse, draws, faults);
      if JsString.Trim(input.title) == "" {
        return Failure("label is required"), 0;
      }
      if !IsValidHttpUrl(parse, input.longUrl) {
        return Failure("invalid longUrl"), 0;
      }
      ghost var store := records;
      var attempts := 0;
      inserts := 0;
      while attempts < MAX_ATTEMPTS
        invariant attempts <= MAX_ATTEMPTS && inserts == attempts
        invariant records == store
        invariant FirstSuccess(store, draws, faults, 0) == FirstSuccess(store, draws, faults, attempts)
      {
        var code := CodeGen.GenerateCode(CODE_LENGTH, draws[attempts]);
        assert draws[attempts][..CODE_LENGTH] == draws[attempts];
        assert code == AttemptCode(draws, attempts);
        inserts := inserts + 1;
        var rec := NewRecord(code, input, now);
        var ok := TryInsert(rec, faults[attempts]);
        if ok {
          assert FirstSuccess(store, draws, faults, attempts) == Some(attempts);
          LoopOutcome(store, input, parse, draws, faults, now);
          return Success(rec), inserts;
        }
        attempts := attempts + 1;
      }
      LoopOutcome(store, input, parse, draws, faults, now);
      r := Failure("could not generate unique code");
    }

    /** `update`; `fault` says which of its database calls rejects, if any. */
    method Update(input: UpdateInput, requester: Option<string>, isAdmin: bool, parse: UrlParser, fault: StoreFault)
      returns (r: Result<Option<ShortUrl>>)
      requires Valid()
      modifies this
      ensures Valid()
      ensures r == UpdateOutcome(old(records), input, requester, isAdmin, parse, fault)
      ensures records == if r.Success? && r.value.Some? then old(records)[input.code := r.value.value] else old(records)
    {
      if fault == ReadFails {
        return Failure(STORE_ERROR);
      }
      if input.code !in records {
        return Success(None);
      }
      var existing := records[input.code];
      if !MayModify(existing, requester, isAdmin) {
        return Failure("forbidden");
      }
      if input.longUrl != Missing && !IsValidHttpUrl(parse, Coerce(input.longUrl)) {
        return Failure("invalid longUrl");
      }
      if fault == WriteFails {
        return Failure(STORE_ERROR);
      }
      var updated := Merge(existing, input);
      records := records[input.code := updated];
      r := Success(Some(updated));
    }

    /** `remove`; `fault` says which of its database calls rejects, if any. */
    method Remove(code: string, requester: Option<string>, isAdmin: bool, fault: StoreFault) returns (r: Result<bool>)
      requires Valid()
      modifies this
      ensures Valid()
      ensures r == RemoveOutcome(old(records), code, requester, isAdmin, fault)
      ensures records == if r == Success(true) then old(records) - {code} else old(records)
    {
      if fault == ReadFails {
        return Failure(STORE_ERROR);
      }
      if code !in records {
        return Success(false);
      }
      if !MayModify(records[code], requester, isAdmin) {
        return Failure("forbidden");
      }
      if fault == WriteFails {
        return Failure(STORE_ERROR);
      }
      records := records - {code};
      r := Success(true);
    }

    /** `incrementStatsOnRedirect`: no ownership check; updating a missing code
      throws, which `None` stands for. */
    method IncrementStatsOnRedirect(code: string, now: int) returns (r: Option<ShortUrl>)
      requires Valid()
      modifies this
      ensures Valid()
      ensures records == AfterRedirect(old(records), code, now)
      ensures r == if code in old(records) then Some(records[code]) else None
    {
      if code !in records {
        return None;
      }
      var bumped := Bumped(records[code], now);
      records := records[code := bumped];
      r := Some(bumped);
    }
  }
}
