/**
 * The report controller: `getReports` (page and limit defaults, offset, page count,
 * newest-first window), `createReport` (five checks in order, the first failing one
 * answering 400, then `Report.create`) and `deleteReport` (404 for an unknown id,
 * otherwise the document is removed).
 */
module ReportController {
  import opened Results
  import opened JsText
  import opened JsNumber
  import opened JsValue
  import opened ReportModel

  /** `new Date(value)` followed by the `isNaN(getTime())` test: `None` for an
      invalid date. The engine's date parsing is not modelled. */
  type DateParser = Value -> Option<Instant>

  /** The four properties of `req.body` that `createReport` reads. */
  datatype CreateBody = CreateBody(title: Value, description: Value, date: Value, location: Value)

  /** The checks of `createReport`, each with its own 400 message. */
  datatype Rule = RequiredFields | TitleLength | DescriptionLength | LocationText | DateFormat

  const ValidationOrder: seq<Rule> := [RequiredFields, TitleLength, DescriptionLength, LocationText, DateFormat]

  function Message(rule: Rule): string {
    match rule
    case RequiredFields => "Título, descrição, data e localização são obrigatórios"
    case TitleLength => "Título deve ter entre 3 e 100 caracteres"
    case DescriptionLength => "Descrição deve ter pelo menos 10 caracteres"
    case LocationText => "Localização deve ser uma string com pelo menos 3 caracteres"
    case DateFormat => "Formato de data inválido"
  }

  const CreatedMessage: string := "Relato criado com sucesso"
  const NotFoundMessage: string := "Relato não encontrado"
  const DeletedMessage: string := "Relato deletado com sucesso"

  const BadRequest: nat := 400
  const NotFound: nat := 404
  const Ok: nat := 200
  const CreatedStatus: nat := 201
  /** A document the schema rejects fails inside `Report.create`; the error
      middleware that answers it is not part of this model, which answers 500. */
  const InternalError: nat := 500

  datatype Pagination = Pagination(page: int, limit: int, total: nat, pages: nat)

  datatype Payload =
    | Failed(message: string)
    | Rejected(errors: set<PathError>)
    | Created(message: string, report: StoredReport)
    | Deleted(message: string)
    | Listing(reports: seq<StoredReport>, pagination: Pagination)

  datatype Response = Response(status: nat, payload: Payload) {
    /** The `success` flag of the JSON body. */
    predicate SuccessFlag() {
      !(payload.Failed? || payload.Rejected?)
    }
  }

  // ----- createReport: validation -----

  /** Whether one check passes, read on its own. A length check on a value that has no
      `length` compares `undefined`, which is false, so it passes. (On a missing field
      JavaScript would throw instead; the checks run only after RequiredFields.) */
  predicate Holds(rule: Rule, b: CreateBody, parse: DateParser) {
    match rule
    case RequiredFields =>
      Truthy(b.title) && Truthy(b.description) && Truthy(b.date) && Truthy(b.location)
    case TitleLength =>
      !(ShorterThan(b.title, TitleMinLength) || LongerThan(b.title, TitleMaxLength))
    case DescriptionLength =>
      !ShorterThan(b.description, DescriptionMinLength)
    case LocationText =>
      IsString(b.location) && !ShorterThan(b.location, LocationMinLength)
    case DateFormat =>
      parse(b.date).Some?
  }

  /** The checks of `createReport` as written: the first one that fails ends the
      request; when all pass the result is the parsed date. */
  function ValidateCreate(b: CreateBody, parse: DateParser): Result<Instant, Rule> {
    if !Truthy(b.title) || !Truthy(b.description) || !Truthy(b.date) || !Truthy(b.location) then
      Failure(RequiredFields)
    else if ShorterThan(b.title, TitleMinLength) || LongerThan(b.title, TitleMaxLength) then
      Failure(TitleLength)
    else if ShorterThan(b.description, DescriptionMinLength) then
      Failure(DescriptionLength)
    else if !IsString(b.location) || ShorterThan(b.location, LocationMinLength) then
      Failure(LocationText)
    else
      match parse(b.date)
      case None => Failure(DateFormat)
      case Some(d) => Success(d)
  }

  /** The first rule of `rules` that does not hold: the generic "first failure wins"
      reading of an ordered list of checks. */
  function FirstFailing(rules: seq<Rule>, b: CreateBody, parse: DateParser): (r: Option<Rule>)
    ensures r.None? <==> forall i :: 0 <= i < |rules| ==> Holds(rules[i], b, parse)
    ensures r.Some? ==> exists k :: 0 <= k < |rules| && rules[k] == r.value
                                 && !Holds(rules[k], b, parse)
                                 && forall i :: 0 <= i < k ==> Holds(rules[i], b, parse)
  {
    if rules == [] then None
    else if !Holds(rules[0], b, parse) then Some(rules[0])
    else
      var r := FirstFailing(rules[1..], b, parse);
      assert forall i :: 1 <= i < |rules| ==> rules[i] == rules[1..][i - 1];
      r
  }

  /** `createReport` answers with the message of the first rule, in the order
      required / title / description / location / date, that fails; it succeeds exactly
      when all five hold, with the date `new Date` produced. */
  lemma ValidationIsFirstFailingRule(b: CreateBody, parse: DateParser)
    ensures ValidateCreate(b, parse).Failure? <==> FirstFailing(ValidationOrder, b, parse).Some?
    ensures ValidateCreate(b, parse).Failure? ==>
              ValidateCreate(b, parse).error == FirstFailing(ValidationOrder, b, parse).value
    ensures ValidateCreate(b, parse).Success? ==> parse(b.date) == Some(ValidateCreate(b, parse).value)
  {
    var o := ValidationOrder;
    assert o[0] == RequiredFields && o[1] == TitleLength && o[2] == DescriptionLength;
    assert o[3] == LocationText && o[4] == DateFormat;
    assert o[1..] == [TitleLength, DescriptionLength, LocationText, DateFormat];
    assert o[2..] == [DescriptionLength, LocationText, DateFormat];
    assert o[3..] == [LocationText, DateFormat];
    assert o[4..] == [DateFormat];
    assert o[1..][1..] == o[2..] && o[2..][1..] == o[3..] && o[3..][1..] == o[4..] && o[4..][1..] == [];
  }

  /** A string title passes the title check exactly when its raw length is within
      3..100; a title that is a number, `true` or an object has no `length`, so the
      check never rejects it. */
  lemma TitleCheckReadsRawLength(b: CreateBody, parse: DateParser)
    ensures b.title.Str? ==> (Holds(TitleLength, b, parse) <==> TitleMinLength <= |b.title.s| <= TitleMaxLength)
    ensures b.title.Number? || b.title.Bool? || b.title.Object? ==> Holds(TitleLength, b, parse)
  {
  }

  /** The controller measures the raw title and the schema the trimmed one. Since
      trimming never lengthens, the controller's lower bound never rejects a title the
      schema accepts and the schema's upper bound never rejects a title the controller
      accepts; the other two bounds can disagree. */
  lemma TitleBoundsCompared(t: JsString)
    ensures TitleMinLength <= |Trim(t)| ==> TitleMinLength <= |t|
    ensures |t| <= TitleMaxLength ==> |Trim(t)| <= TitleMaxLength
  {
    TrimKeepsMiddle(t);
  }

  /** `"  ab  "` passes the controller's title check (raw length 6) and breaks the
      schema's minimum (trimmed length 2). */
  lemma PaddedShortTitlePassesControllerOnly(b: CreateBody, parse: DateParser)
    requires b.title == Str([0x20, 0x20, 0x61, 0x62, 0x20, 0x20])
    ensures Holds(TitleLength, b, parse)
    ensures !PathValid(Candidate(b.title, b.description, Some(Instant(0)), b.location), Title)
  {
    var t: JsString := [0x20, 0x20, 0x61, 0x62, 0x20, 0x20];
    assert t[..2] == [0x20, 0x20] && t[4..] == [0x20, 0x20];
    assert t[2..4] == [0x61, 0x62];
    TrimUnique(t, 2, 4);
  }

  /** A numeric title skips the controller's length check and is cast to its decimal
      text by the schema, so `12` is turned away by the schema's minimum instead. */
  lemma NumericTitleSkipsLengthCheck(b: CreateBody, parse: DateParser)
    requires b.title == Number(12)
    ensures Truthy(b.title) && Holds(TitleLength, b, parse)
    ensures !PathValid(Candidate(b.title, b.description, Some(Instant(0)), b.location), Title)
  {
    var t := IntegerToString(12);
    assert t == [0x31, 0x32];
    TrimmedIsFixed(t);
  }

  // ----- getReports: pagination arithmetic -----

  /** `parseInt(q, 10) || fallback`: NaN and 0 are falsy, so both give the fallback;
      an absent parameter reads as NaN. */
  function QueryInteger(q: Option<JsString>, fallback: int): int {
    var parsed := if q.Some? then ParseInt(q.value) else None;
    if parsed.None? || parsed.value == 0 then fallback else parsed.value
  }

  function PageParam(q: Option<JsString>): (page: int)
    ensures page != 0
  {
    QueryInteger(q, 1)
  }

  function LimitParam(q: Option<JsString>): (limit: int)
    ensures limit != 0
  {
    QueryInteger(q, 10)
  }

  /** The parameters take the number written in the query, except that a missing,
      non-numeric or zero value gives page 1 and limit 10. */
  lemma QueryDefaults(n: int, rest: JsString)
    requires rest == [] || !IsDigit(rest[0])
    ensures PageParam(Some(IntegerToString(n) + rest)) == if n == 0 then 1 else n
    ensures LimitParam(Some(IntegerToString(n) + rest)) == if n == 0 then 10 else n
    ensures PageParam(None) == 1 && LimitParam(None) == 10
  {
    ParseIntReadsInteger(n, rest);
  }

  /** Any other way of writing a number is read as `parseInt` reads it: `"05"`, `"+5"`
      and `" 5"` all give page 5. */
  lemma QueryReadsDigits(w: JsString, sign: JsString, z: JsString, rest: JsString)
    requires AllWhitespace(w)
    requires sign == [] || sign == [Minus] || sign == [Plus]
    requires z != [] && AllDigits(z)
    requires rest == [] || !IsDigit(rest[0])
    ensures var n := if sign == [Minus] then 0 - DigitsValue(z) as int else DigitsValue(z);
            && PageParam(Some(w + sign + z + rest)) == (if n == 0 then 1 else n)
            && LimitParam(Some(w + sign + z + rest)) == (if n == 0 then 10 else n)
  {
    ParseIntReadsDigits(w, sign, z, rest);
  }

  /** A query value without digits (after whitespace and a sign) falls back too. */
  lemma NonNumericQueryFallsBack(w: JsString, sign: JsString, rest: JsString)
    requires AllWhitespace(w)
    requires sign == [] || sign == [Minus] || sign == [Plus]
    requires rest == [] || (!IsDigit(rest[0]) && (sign == [] ==> !IsWhitespace(rest[0]) && rest[0] != Minus && rest[0] != Plus))
    ensures PageParam(Some(w + sign + rest)) == 1 && LimitParam(Some(w + sign + rest)) == 10
  {
    ParseIntNaN(w, sign, rest);
  }

  /** A sign followed by a space, as in `"- 5"`, has no digits right after the sign,
      so both parameters fall back to their defaults. */
  lemma SpacedSignFallsBack()
    ensures PageParam(Some([Minus, 0x20, 0x35])) == 1
    ensures LimitParam(Some([Minus, 0x20, 0x35])) == 10
  {
    NonNumericQueryFallsBack([], [Minus], [0x20, 0x35]);
  }

  /** `startIndex = (page - 1) * limit`. */
  function StartIndex(page: int, limit: int): (skip: int)
    requires page >= 1 && limit >= 1
    ensures skip >= 0
    ensures page == 1 <==> skip == 0
  {
    (page - 1) * limit
  }

  /** `Math.ceil(total / limit)`: the fewest pages of `limit` records that hold `total`. */
  function PageCount(total: nat, limit: int): (pages: nat)
    requires limit >= 1
    ensures pages * limit >= total
    ensures pages == 0 || (pages - 1) * limit < total
  {
    var q := (total + limit - 1) / limit;
    assert q * limit + (total + limit - 1) % limit == total + limit - 1;
    q
  }

  /** Consecutive pages follow each other without gap or overlap. */
  lemma PagesAreAdjacent(page: int, limit: int)
    requires page >= 1 && limit >= 1
    ensures StartIndex(page + 1, limit) == StartIndex(page, limit) + limit
  {
  }

  /** Every position of the newest-first sequence lies on exactly one page within the
      page count: position `k` is entry `k % limit` of page `k / limit + 1`, and no
      other page's window covers it. */
  lemma EachRecordOnItsPage<T>(s: seq<T>, limit: int, k: nat)
    requires limit >= 1 && k < |s|
    ensures var page := k / limit + 1;
            && page <= PageCount(|s|, limit)
            && StartIndex(page, limit) <= k < StartIndex(page, limit) + limit
            && k % limit < |Window(s, StartIndex(page, limit), limit)|
            && Window(s, StartIndex(page, limit), limit)[k % limit] == s[k]
    ensures forall p :: p >= 1 && StartIndex(p, limit) <= k < StartIndex(p, limit) + limit ==>
                        p == k / limit + 1
  {
    var q, r := k / limit, k % limit;
    DivideByLimit(k, limit);
    var start := StartIndex(q + 1, limit);
    assert start == q * limit;
    var pages := PageCount(|s|, limit);
    assert q * limit < pages * limit;
    FactorBelow(q, pages, limit);
    var w := Window(s, start, limit);
    assert |w| == Min(limit, |s| - start);
    assert w[r] == s[start + r];
    forall p | p >= 1 && StartIndex(p, limit) <= k < StartIndex(p, limit) + limit
      ensures p == q + 1
    {
      OneWindowPerPosition(p - 1, q, limit, k);
    }
  }

  /** Position `k` splits into a whole number of windows and a remainder within one. */
  lemma DivideByLimit(k: nat, limit: int)
    requires limit >= 1
    ensures k / limit >= 0 && 0 <= k % limit < limit
    ensures k == (k / limit) * limit + k % limit
  {
  }

  /** Two windows `[a*limit, a*limit + limit)` and `[b*limit, b*limit + limit)` that
      share a position are the same window. */
  lemma OneWindowPerPosition(a: nat, b: nat, limit: nat, k: nat)
    requires limit >= 1
    requires a * limit <= k < a * limit + limit
    requires b * limit <= k < b * limit + limit
    ensures a == b
  {
    assert (a + 1) * limit == a * limit + limit;
    assert (b + 1) * limit == b * limit + limit;
    FactorBelow(a, b + 1, limit);
    FactorBelow(b, a + 1, limit);
  }

  lemma FactorBelow(a: nat, b: nat, c: nat)
    requires a * c < b * c
    ensures a < b
  {
    assert (b - a) * c == b * c - a * c;
  }

  /** The listed window is in newest-first order, and its `i`-th entry is the record
      created `skip + i` places before the newest one. */
  lemma ListingIsNewestFirstWindow(rs: seq<StoredReport>, skip: nat, limit: nat)
    requires CreationOrder(rs)
    ensures var w := Window(NewestFirst(rs), skip, limit);
            && NewestFirstOrder(w)
            && |w| <= limit
            && forall i :: 0 <= i < |w| ==> w[i] == rs[|rs| - 1 - (skip + i)]
  {
    NewestFirstSorts(rs);
  }

  /** With no more records than the limit, page 1 lists all of them, newest first, on
      the only page there is; an empty collection has no page at all. */
  lemma SmallCollectionFitsOnFirstPage(rs: seq<StoredReport>, limit: int)
    requires 1 <= limit && |rs| <= limit
    ensures Window(NewestFirst(rs), StartIndex(1, limit), limit) == NewestFirst(rs)
    ensures PageCount(|rs|, limit) == if rs == [] then 0 else 1
  {
    var s := NewestFirst(rs);
    if rs != [] {
      assert s[0..Min(0 + limit, |s|)] == s;
    }
    var pages := PageCount(|rs|, limit);
    if rs != [] {
      assert pages != 0;
      FactorBelow(pages - 1, 1, limit);
    }
  }

  // ----- createReport: from the checks to the saved document -----

  /** When the body's three texts are strings without surrounding whitespace, passing
      the controller's checks means the schema accepts them too, and the saved report
      holds exactly the submitted texts. */
  lemma TrimmedBodyIsSavedAsSent(b: CreateBody, parse: DateParser)
    requires ValidateCreate(b, parse).Success?
    requires b.title.Str? && b.description.Str? && b.location.Str?
    requires IsTrimmed(b.title.s) && IsTrimmed(b.description.s) && IsTrimmed(b.location.s)
    ensures var c := Candidate(b.title, b.description, Some(ValidateCreate(b, parse).value), b.location);
            && Save(c).Success?
            && Save(c).value.title == b.title.s
            && Save(c).value.description == b.description.s
            && Save(c).value.location == b.location.s
  {
    var c := Candidate(b.title, b.description, Some(ValidateCreate(b, parse).value), b.location);
    TrimmedIsFixed(b.title.s);
    TrimmedIsFixed(b.description.s);
    TrimmedIsFixed(b.location.s);
    SaveAcceptsExactlyValid(c);
  }

  // ----- handlers -----

  /** GET /api/reports: count everything, fetch one newest-first window, and echo the
      effective page and limit. The collection is only read. */
  method GetReports(store: ReportCollection, pageQuery: Option<JsString>, limitQuery: Option<JsString>)
    returns (resp: Response)
    requires store.Valid()
    requires PageParam(pageQuery) >= 1 && LimitParam(limitQuery) >= 1
    ensures var page, limit := PageParam(pageQuery), LimitParam(limitQuery);
            var total := |store.records|;
            resp == Response(Ok, Listing(store.FindNewestFirst(StartIndex(page, limit), limit),
                                         Pagination(page, limit, total, PageCount(total, limit))))
    ensures resp.SuccessFlag() && resp.status < 400
  {
    var page := PageParam(pageQuery);
    var limit := LimitParam(limitQuery);
    var startIndex := StartIndex(page, limit);
    var total := |store.records|;
    var reports := store.FindNewestFirst(startIndex, limit);
    resp := Response(Ok, Listing(reports, Pagination(page, limit, total, PageCount(total, limit))));
  }

  /** POST /api/reports: run the checks; when they pass, hand the fields and the parsed
      date to `Report.create` and answer 201 with the stored report. */
  method CreateReport(store: ReportCollection, b: CreateBody, parse: DateParser) returns (resp: Response)
    requires store.Valid()
    modifies store
    ensures store.Valid()
    ensures ValidateCreate(b, parse).Failure? ==>
              && resp == Response(BadRequest, Failed(Message(ValidateCreate(b, parse).error)))
              && unchanged(store)
    ensures ValidateCreate(b, parse).Success? ==>
              var c := Candidate(b.title, b.description, Some(ValidateCreate(b, parse).value), b.location);
              && (Save(c).Failure? ==> resp == Response(InternalError, Rejected(Save(c).error)) && unchanged(store))
              && (Save(c).Success? ==>
                    var report := StoredReport(old(store.nextId), old(store.clock), Save(c).value);
                    && resp == Response(CreatedStatus, Created(CreatedMessage, report))
                    && store.records == old(store.records) + [report]
                    && store.nextId == old(store.nextId) + 1 && store.clock == old(store.clock) + 1)
    ensures resp.SuccessFlag() <==> resp.status < 400
  {
    var checked := ValidateCreate(b, parse);
    if checked.Failure? {
      return Response(BadRequest, Failed(Message(checked.error)));
    }
    var candidate := Candidate(b.title, b.description, Some(checked.value), b.location);
    var created := store.Create(candidate);
    match created
    case Failure(errors) =>
      resp := Response(InternalError, Rejected(errors));
    case Success(report) =>
      resp := Response(CreatedStatus, Created(CreatedMessage, report));
  }

  /** DELETE /api/reports/:id: 404 when no report has the id; otherwise that report, and
      only it, is removed and the answer is 200. Either way the id is absent after. */
  method DeleteReport(store: ReportCollection, id: nat) returns (resp: Response)
    requires store.Valid()
    modifies store
    ensures store.Valid()
    ensures IndexOf(old(store.records), id).None? ==>
              resp == Response(NotFound, Failed(NotFoundMessage)) && unchanged(store)
    ensures IndexOf(old(store.records), id).Some? ==>
              var k := IndexOf(old(store.records), id).value;
              && resp == Response(Ok, Deleted(DeletedMessage))
              && store.records == old(store.records)[..k] + old(store.records)[k + 1..]
              && multiset(store.records) == multiset(old(store.records)) - multiset{old(store.records)[k]}
              && store.nextId == old(store.nextId) && store.clock == old(store.clock)
              && id < store.nextId
    ensures store.FindById(id).None?
    ensures resp.SuccessFlag() <==> resp.status < 400
  {
    var report := store.FindById(id);
    if report.None? {
      return Response(NotFound, Failed(NotFoundMessage));
    }
    RemoveDropsOnlyThatId(store.records, id);
    store.DeleteOne(id);
    resp := Response(Ok, Deleted(DeletedMessage));
  }
}
