/**
 * The `Report` model: the schema's per-field rules (cast to String, trim, required,
 * minlength, maxlength; a required date) and the collection of saved documents that
 * the controller creates, lists and deletes.
 */
module ReportModel {
  import opened Results
  import opened JsText
  import opened JsNumber
  import opened JsValue

  /** A point in time; how a request's date text becomes one is left to the caller. */
  datatype Instant = Instant(millis: int)

  datatype Path = Title | Description | Date | Location

  /** One failed rule of the schema, by path, as Mongoose reports it. */
  datatype PathError =
    | CastError(path: Path)
    | Required(path: Path)
    | MinLength(path: Path)
    | MaxLength(path: Path)

  const TitleMinLength: nat := 3
  const TitleMaxLength: nat := 100
  const DescriptionMinLength: nat := 10
  const LocationMinLength: nat := 3

  /** What is handed to `Report.create`. */
  datatype Candidate = Candidate(title: Value, description: Value, date: Option<Instant>, location: Value)

  /** The business fields of a saved report. */
  datatype Document = Document(title: JsString, description: JsString, date: Instant, location: JsString)

  /** The outcome of casting a value to a String path. */
  datatype StringCast = Missing | Text(s: JsString) | Uncastable

  const TrueText: JsString := [0x74, 0x72, 0x75, 0x65]
  const FalseText: JsString := [0x66, 0x61, 0x6C, 0x73, 0x65]

  /** Mongoose's String cast: `null` and `undefined` leave the path unset, numbers and
      booleans go through `toString()`, arrays and plain objects cannot be cast. */
  function CastString(v: Value): StringCast {
    match v
    case Undefined => Missing
    case Null => Missing
    case Bool(b) => Text(if b then TrueText else FalseText)
    case Number(n) => Text(IntegerToString(n))
    case Str(s) => Text(s)
    case Array(_) => Uncastable
    case Object => Uncastable
  }

  /** One String path with `trim: true`: cast, trim, then the validators in the order
      Mongoose runs them (required, which also rejects the empty string, then
      minlength, then maxlength); the first one that fails is the path's error. */
  function ValidateText(v: Value, path: Path, minLength: nat, maxLength: Option<nat>): (r: Result<JsString, PathError>)
    ensures r.Success? <==> CastString(v).Text? && |Trim(CastString(v).s)| > 0
                            && minLength <= |Trim(CastString(v).s)|
                            && (maxLength.Some? ==> |Trim(CastString(v).s)| <= maxLength.value)
    ensures r.Success? ==> r.value == Trim(CastString(v).s) && IsTrimmed(r.value)
    ensures r.Failure? ==> r.error.path == path
  {
    match CastString(v)
    case Uncastable => Failure(CastError(path))
    case Missing => Failure(Required(path))
    case Text(s) =>
      var t := Trim(s);
      TrimKeepsMiddle(s);
      if t == [] then Failure(Required(path))
      else if |t| < minLength then Failure(MinLength(path))
      else if maxLength.Some? && |t| > maxLength.value then Failure(MaxLength(path))
      else Success(t)
  }

  function ErrorOf<T>(r: Result<T, PathError>): set<PathError> {
    if r.Failure? then {r.error} else {}
  }

  /** The rule of each path as the schema declares it, on the value after casting and
      trimming. */
  predicate PathValid(c: Candidate, p: Path) {
    match p
    case Title =>
      CastString(c.title).Text? && TitleMinLength <= |Trim(CastString(c.title).s)| <= TitleMaxLength
    case Description =>
      CastString(c.description).Text? && |Trim(CastString(c.description).s)| >= DescriptionMinLength
    case Date =>
      c.date.Some?
    case Location =>
      CastString(c.location).Text? && |Trim(CastString(c.location).s)| >= LocationMinLength
  }

  predicate SchemaValid(c: Candidate) {
    PathValid(c, Title) && PathValid(c, Description) && PathValid(c, Date) && PathValid(c, Location)
  }

  /** The invariant of every saved report: each text field is trimmed and within its
      bounds (so non-empty), and there is a date. */
  predicate StoredValid(d: Document) {
    && IsTrimmed(d.title) && TitleMinLength <= |d.title| <= TitleMaxLength
    && IsTrimmed(d.description) && |d.description| >= DescriptionMinLength
    && IsTrimmed(d.location) && |d.location| >= LocationMinLength
  }

  /** The result of each path's validators, in schema order. */
  function TitleCheck(c: Candidate): Result<JsString, PathError> {
    ValidateText(c.title, Title, TitleMinLength, Some(TitleMaxLength))
  }

  function DescriptionCheck(c: Candidate): Result<JsString, PathError> {
    ValidateText(c.description, Description, DescriptionMinLength, None)
  }

  function DateCheck(c: Candidate): Result<Instant, PathError> {
    if c.date.Some? then Success(c.date.value) else Failure(Required(Date))
  }

  function LocationCheck(c: Candidate): Result<JsString, PathError> {
    ValidateText(c.location, Location, LocationMinLength, None)
  }

  /** Document validation on `Report.create`: every path is validated and all failures
      are reported together; a document is built only when none fails. */
  function Save(c: Candidate): (r: Result<Document, set<PathError>>)
    ensures r.Success? ==> StoredValid(r.value)
  {
    var title, description, date, location := TitleCheck(c), DescriptionCheck(c), DateCheck(c), LocationCheck(c);
    if title.Success? && description.Success? && date.Success? && location.Success? then
      Success(Document(title.value, description.value, date.value, location.value))
    else
      Failure(ErrorOf(title) + ErrorOf(description) + ErrorOf(date) + ErrorOf(location))
  }

  /** Each path's validators pass exactly when the path meets its declared rule. */
  lemma ChecksMatchRules(c: Candidate)
    ensures TitleCheck(c).Success? <==> PathValid(c, Title)
    ensures DescriptionCheck(c).Success? <==> PathValid(c, Description)
    ensures DateCheck(c).Success? <==> PathValid(c, Date)
    ensures LocationCheck(c).Success? <==> PathValid(c, Location)
  {
  }

  /** `Report.create` accepts exactly the schema-valid candidates, and stores each text
      field as the trim of its cast input and the given date. */
  lemma SaveAcceptsExactlyValid(c: Candidate)
    ensures Save(c).Success? <==> SchemaValid(c)
    ensures Save(c).Success? ==>
              && Save(c).value.title == Trim(CastString(c.title).s)
              && Save(c).value.description == Trim(CastString(c.description).s)
              && Save(c).value.location == Trim(CastString(c.location).s)
              && Some(Save(c).value.date) == c.date
  {
    ChecksMatchRules(c);
  }

  /** A rejected save names every path that breaks its rule, and only those. */
  lemma SaveReportsFailingPaths(c: Candidate)
    requires Save(c).Failure?
    ensures Save(c).error != {}
    ensures forall e :: e in Save(c).error ==> !PathValid(c, e.path)
    ensures forall p: Path :: !PathValid(c, p) ==> exists e :: e in Save(c).error && e.path == p
  {
    ChecksMatchRules(c);
    var t, d, dt, l := TitleCheck(c), DescriptionCheck(c), DateCheck(c), LocationCheck(c);
    var errors := Save(c).error;
    assert errors == ErrorOf(t) + ErrorOf(d) + ErrorOf(dt) + ErrorOf(l);
    forall e | e in errors ensures !PathValid(c, e.path) {
      if e in ErrorOf(t) { assert e.path == Title; }
      else if e in ErrorOf(d) { assert e.path == Description; }
      else if e in ErrorOf(dt) { assert e.path == Date; }
      else { assert e.path == Location; }
    }
    forall p: Path | !PathValid(c, p) ensures exists e :: e in errors && e.path == p {
      match p
      case Title => assert t.error in errors;
      case Description => assert d.error in errors;
      case Date => assert dt.error in errors;
      case Location => assert l.error in errors;
    }
  }

  /** Saving a saved report's fields again gives back the same document. */
  lemma ResaveIsIdentity(d: Document)
    requires StoredValid(d)
    ensures Save(Candidate(Str(d.title), Str(d.description), Some(d.date), Str(d.location))) == Success(d)
  {
    var c := Candidate(Str(d.title), Str(d.description), Some(d.date), Str(d.location));
    TrimmedIsFixed(d.title);
    TrimmedIsFixed(d.description);
    TrimmedIsFixed(d.location);
    assert TitleCheck(c) == Success(d.title);
    assert DescriptionCheck(c) == Success(d.description);
    assert LocationCheck(c) == Success(d.location);
  }

  /** A saved report, with its store-assigned id and creation stamp. */
  datatype StoredReport = StoredReport(id: nat, createdAt: nat, doc: Document)

  /** The first position holding `id`, if any. */
  function IndexOf(rs: seq<StoredReport>, id: nat): (r: Option<nat>)
    ensures r.Some? ==> r.value < |rs| && rs[r.value].id == id
    ensures r.None? <==> forall k :: 0 <= k < |rs| ==> rs[k].id != id
  {
    if rs == [] then None
    else if rs[0].id == id then Some(0)
    else match IndexOf(rs[1..], id)
      case None => None
      case Some(k) => Some(k + 1)
  }

  function Reverse<T>(s: seq<T>): (r: seq<T>)
    ensures |r| == |s|
    ensures forall i :: 0 <= i < |s| ==> r[i] == s[|s| - 1 - i]
  {
    if s == [] then [] else Reverse(s[1..]) + [s[0]]
  }

  predicate NewestFirstOrder(rs: seq<StoredReport>) {
    forall i, j :: 0 <= i < j < |rs| ==> rs[i].createdAt > rs[j].createdAt
  }

  predicate CreationOrder(rs: seq<StoredReport>) {
    forall i, j :: 0 <= i < j < |rs| ==> rs[i].createdAt < rs[j].createdAt && rs[i].id < rs[j].id
  }

  /** `sort({ createdAt: -1 })` over records kept in creation order. */
  function NewestFirst(rs: seq<StoredReport>): seq<StoredReport> {
    Reverse(rs)
  }

  /** Reversing the creation order is a sort by creation stamp, newest first. */
  lemma NewestFirstSorts(rs: seq<StoredReport>)
    requires CreationOrder(rs)
    ensures NewestFirstOrder(NewestFirst(rs))
    ensures multiset(NewestFirst(rs)) == multiset(rs)
  {
    ReverseSameElements(rs);
  }

  /** Creation stamps are distinct, so only one arrangement of a given set of records
      is newest first: the sort's result does not depend on how it breaks ties. */
  lemma {:induction false} NewestFirstIsUnique(a: seq<StoredReport>, b: seq<StoredReport>)
    requires multiset(a) == multiset(b)
    requires NewestFirstOrder(a) && NewestFirstOrder(b)
    ensures a == b
  {
    if a != [] {
      assert |a| == |multiset(a)| == |multiset(b)| == |b|;
      NewestComesFirst(a, b);
      DropSameHead(a, b);
      TailStaysNewestFirst(a);
      TailStaysNewestFirst(b);
      NewestFirstIsUnique(a[1..], b[1..]);
      assert a == [a[0]] + a[1..] && b == [b[0]] + b[1..];
    }
  }

  lemma NewestComesFirst(a: seq<StoredReport>, b: seq<StoredReport>)
    requires a != [] && b != [] && multiset(a) == multiset(b)
    requires NewestFirstOrder(a) && NewestFirstOrder(b)
    ensures a[0] == b[0]
  {
    assert a[0] in multiset(b) && b[0] in multiset(a);
    var i :| 0 <= i < |a| && a[i] == b[0];
    var j :| 0 <= j < |b| && b[j] == a[0];
  }

  lemma DropSameHead(a: seq<StoredReport>, b: seq<StoredReport>)
    requires a != [] && b != [] && multiset(a) == multiset(b) && a[0] == b[0]
    ensures multiset(a[1..]) == multiset(b[1..])
  {
    assert a == [a[0]] + a[1..] && b == [b[0]] + b[1..];
    var x := a[0];
    assert multiset(a) == multiset([x] + a[1..]) == multiset([x]) + multiset(a[1..]);
    assert multiset(b) == multiset([x] + b[1..]) == multiset([x]) + multiset(b[1..]);
    forall z ensures multiset(a[1..])[z] == multiset(b[1..])[z] {
      assert (multiset([x]) + multiset(a[1..]))[z] == (multiset([x]) + multiset(b[1..]))[z];
    }
  }

  lemma TailStaysNewestFirst(a: seq<StoredReport>)
    requires a != [] && NewestFirstOrder(a)
    ensures NewestFirstOrder(a[1..])
  {
    forall i, j | 0 <= i < j < |a| - 1 ensures a[1..][i].createdAt > a[1..][j].createdAt {
      assert a[1..][i] == a[i + 1] && a[1..][j] == a[j + 1];
    }
  }

  lemma {:induction false} ReverseSameElements<T>(s: seq<T>)
    ensures multiset(Reverse(s)) == multiset(s)
  {
    if s != [] {
      ReverseSameElements(s[1..]);
      assert s == [s[0]] + s[1..];
    }
  }

  function Min(a: nat, b: nat): nat {
    if a <= b then a else b
  }

  /** `skip(skip).limit(limit)` over a result sequence. */
  function Window<T>(s: seq<T>, skip: nat, limit: nat): (w: seq<T>)
    ensures |w| <= limit
    ensures |w| == if skip >= |s| then 0 else Min(limit, |s| - skip)
    ensures forall i :: 0 <= i < |w| ==> w[i] == s[skip + i]
  {
    if skip >= |s| then [] else s[skip..Min(skip + limit, |s|)]
  }

  /** The report collection: saved documents in the order they were created, the next
      id to hand out, and a clock standing in for `createdAt`. */
  class ReportCollection {
    var records: seq<StoredReport>
    var nextId: nat
    var clock: nat

    ghost predicate Valid()
      reads this
    {
      && CreationOrder(records)
      && (forall i :: 0 <= i < |records| ==>
            records[i].id < nextId && records[i].createdAt < clock && StoredValid(records[i].doc))
    }

    constructor ()
      ensures Valid() && records == []
    {
      records := [];
      nextId := 0;
      clock := 0;
    }

    /** `Report.find().sort({ createdAt: -1 }).skip(skip).limit(limit)`. */
    function FindNewestFirst(skip: nat, limit: nat): seq<StoredReport>
      reads this
    {
      Window(NewestFirst(records), skip, limit)
    }

    /** `Report.findById(id)`. */
    function FindById(id: nat): (r: Option<StoredReport>)
      reads this
      ensures r.Some? <==> exists k :: 0 <= k < |records| && records[k].id == id
      ensures r.Some? ==> r.value in records && r.value.id == id
    {
      match IndexOf(records, id)
      case None => None
      case Some(k) => Some(records[k])
    }

    /** `Report.create(candidate)`: validate, then insert one document stamped with a
        fresh id and the current time; a failed validation inserts nothing. */
    method Create(c: Candidate) returns (r: Result<StoredReport, set<PathError>>)
      requires Valid()
      modifies this
      ensures Valid()
      ensures Save(c).Failure? ==> r == Failure(Save(c).error) && unchanged(this)
      ensures Save(c).Success? ==>
                && r == Success(StoredReport(old(nextId), old(clock), Save(c).value))
                && records == old(records) + [r.value]
                && IndexOf(old(records), r.value.id).None?
                && nextId == old(nextId) + 1 && clock == old(clock) + 1
    {
      var saved := Save(c);
      if saved.Failure? {
        return Failure(saved.error);
      }
      var report := StoredReport(nextId, clock, saved.value);
      records := records + [report];
      nextId := nextId + 1;
      clock := clock + 1;
      r := Success(report);
    }

    /** `report.deleteOne()` on a document found by id: removes it, and nothing else. */
    method DeleteOne(id: nat)
      requires Valid()
      requires IndexOf(records, id).Some?
      modifies this
      ensures Valid()
      ensures var k := IndexOf(old(records), id).value;
              records == old(records)[..k] + old(records)[k + 1..]
      ensures nextId == old(nextId) && clock == old(clock)
    {
      var k := IndexOf(records, id).value;
      RemovePreservesOrder(records, k);
      records := records[..k] + records[k + 1..];
    }
  }

  lemma RemovePreservesOrder(rs: seq<StoredReport>, k: nat)
    requires k < |rs| && CreationOrder(rs)
    ensures CreationOrder(rs[..k] + rs[k + 1..])
  {
    var out := rs[..k] + rs[k + 1..];
    forall i, j | 0 <= i < j < |out|
      ensures out[i].createdAt < out[j].createdAt && out[i].id < out[j].id
    {
      var i' := if i < k then i else i + 1;
      var j' := if j < k then j else j + 1;
      assert out[i] == rs[i'] && out[j] == rs[j'];
    }
  }

  /** Removing the record at the position of `id` leaves every other record and takes
      `id` out of the collection (ids are unique in creation order). */
  lemma RemoveDropsOnlyThatId(rs: seq<StoredReport>, id: nat)
    requires CreationOrder(rs) && IndexOf(rs, id).Some?
    ensures var k := IndexOf(rs, id).value;
            && multiset(rs[..k] + rs[k + 1..]) == multiset(rs) - multiset{rs[k]}
            && IndexOf(rs[..k] + rs[k + 1..], id).None?
  {
    var k := IndexOf(rs, id).value;
    RemoveAtMultiset(rs, k);
    RemoveAtDropsId(rs, k);
  }

  lemma RemoveAtMultiset<T>(s: seq<T>, k: nat)
    requires k < |s|
    ensures multiset(s[..k] + s[k + 1..]) == multiset(s) - multiset{s[k]}
  {
    assert s == s[..k] + [s[k]] + s[k + 1..];
  }

  /** Ids are strictly increasing in creation order, so no other record shares the
      removed record's id. */
  lemma RemoveAtDropsId(rs: seq<StoredReport>, k: nat)
    requires CreationOrder(rs) && k < |rs|
    ensures IndexOf(rs[..k] + rs[k + 1..], rs[k].id).None?
  {
    var out := rs[..k] + rs[k + 1..];
    forall m | 0 <= m < |out| ensures out[m].id != rs[k].id {
      if m < k {
        assert out[m] == rs[m];
      } else {
        assert out[m] == rs[m + 1];
      }
    }
  }

}
