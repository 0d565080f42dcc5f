/**
 * `PEP` and `PEP.from_json`: one record of the PEP index, built from the raw
 * JSON mapping that describes it.
 *
 * A JSON scalar is a `Value`. The fields the builder copies without looking
 * at them (`number`, `title`, `sponsor`, `delegate`, `discussions_to`,
 * `status`, `type`, `topic`, `url`) keep the raw value, since Python stores
 * whatever the mapping holds there.
 */
module PepRecord {
  import opened Wrappers
  import opened Errors
  import opened Text
  import opened Dates
  import opened Integers
  import opened PostHistories
  import opened Authors

  /** A JSON scalar as `json.loads` gives it: `None`, a `str` or an `int`. */
  datatype Value = Null | Str(s: string) | Int(i: int)

  /** The raw mapping for one PEP. */
  type Data = map<string, Value>

  /** `data.get(key, default)`. */
  function Get(data: Data, key: string, default: Value): (v: Value)
    ensures key in data ==> v == data[key]
    ensures key !in data ==> v == default
  {
    if key in data then data[key] else default
  }

  /** Python truthiness: `None`, `""` and `0` are false. */
  predicate Truthy(v: Value) {
    match v
    case Null => false
    case Str(s) => s != []
    case Int(n) => n != 0
  }

  datatype Pep = Pep(
    number: Value,
    title: Value,
    authors: seq<string>,
    sponsor: Value,
    delegate: Value,
    discussionsTo: Value,
    status: Value,
    pepType: Value,
    topic: Value,
    requiredPeps: seq<int>,
    created: Date,
    pythonVersion: seq<string>,
    postHistory: seq<PostHistory>,
    resolution: Option<PostHistory>,
    replacedPeps: seq<int>,
    supersededBy: Option<int>,
    url: Value)

  /** The pieces of a comma list that are not empty, in order (`if version`, `if post`). */
  function NonEmpty(pieces: seq<string>): (r: seq<string>)
    ensures |r| <= |pieces|
    ensures forall p :: p in r <==> p in pieces && p != []
  {
    if pieces == [] then []
    else (if pieces[0] == [] then [] else [pieces[0]]) + NonEmpty(pieces[1..])
  }

  /** Each piece stripped. */
  function StripEach(pieces: seq<string>): (r: seq<string>)
    ensures |r| == |pieces|
    ensures forall i :: 0 <= i < |pieces| ==> r[i] == Strip(pieces[i])
  {
    seq(|pieces|, i requires 0 <= i < |pieces| => Strip(pieces[i]))
  }

  /**
   * `(data.get(key, default) or "").split(",")`: a false value splits as `""`;
   * a true value that is not a `str` has no `split`.
   */
  function CommaPieces(data: Data, key: string, default: Value): (r: Result<seq<string>, Error>)
    ensures !Truthy(Get(data, key, default)) ==> r == Ok([[]])
    ensures Get(data, key, default).Str? ==> r == Ok(Split(Get(data, key, default).s, ','))
    ensures r.Err? <==> Truthy(Get(data, key, default)) && Get(data, key, default).Int?
    ensures r.Err? ==> r.error == WrongType(key)
  {
    var v := Get(data, key, default);
    if !Truthy(v) then Ok(Split([], ','))
    else if v.Str? then Ok(Split(v.s, ','))
    else Err(WrongType(key))
  }

  /** `cls._authors(data.get("authors", ""))`; a value that is not a `str` cannot be split. */
  function AuthorsField(data: Data): (r: Result<seq<string>, Error>)
    ensures "authors" !in data ==> r == Ok([""])
    ensures r.Ok? <==> Get(data, "authors", Str("")).Str?
    ensures r.Ok? ==> r.value == AuthorsOf(Get(data, "authors", Str("")).s)
    ensures r.Err? ==> r.error == WrongType("authors")
  {
    match Get(data, "authors", Str(""))
    case Str(s) =>
      EmptyIsOneEmptyAuthor();
      Ok(AuthorsOf(s))
    case _ => Err(WrongType("authors"))
  }

  /**
   * `get_ints(field)`: `data[field]` must be present; a `str` is split on
   * commas and each piece read by `int()`; any other value gives no numbers.
   */
  function GetInts(data: Data, field: string): (r: Result<seq<int>, Error>)
    ensures field !in data ==> r == Err(MissingKey(field))
    ensures field in data && !data[field].Str? ==> r == Ok([])
    ensures field in data && data[field].Str? ==> r == Traverse(Split(data[field].s, ','), ParseInt)
  {
    if field !in data then Err(MissingKey(field))
    else
      match data[field]
      case Str(values) => Traverse(Split(values, ','), ParseInt)
      case _ => Ok([])
  }

  /** `parse_date(data.get("created", ""))`; `strptime` refuses a value that is not a `str`. */
  function CreatedField(data: Data): (r: Result<Date, Error>)
    ensures "created" !in data ==> r == Err(MalformedDate(""))
    ensures Get(data, "created", Str("")).Str? ==> r == ParseDate(Get(data, "created", Str("")).s)
    ensures !Get(data, "created", Str("")).Str? ==> r == Err(WrongType("created"))
  {
    match Get(data, "created", Str(""))
    case Str(s) => ParseDate(s)
    case _ => Err(WrongType("created"))
  }

  /** The `python_version` tuple: the non-empty comma pieces, each stripped. */
  function PythonVersionField(data: Data): (r: Result<seq<string>, Error>)
    ensures !Truthy(Get(data, "python_version", Null)) ==> r == Ok([])
    ensures Get(data, "python_version", Null).Str? ==>
      r == Ok(StripEach(NonEmpty(Split(Get(data, "python_version", Null).s, ','))))
    ensures r.Ok? ==> forall v :: v in r.value ==> IsStripped(v)
    ensures r.Err? <==> Truthy(Get(data, "python_version", Null)) && Get(data, "python_version", Null).Int?
    ensures r.Err? ==> r.error == WrongType("python_version")
  {
    var pieces :- CommaPieces(data, "python_version", Null);
    Ok(StripEach(NonEmpty(pieces)))
  }

  /**
   * One kept piece of `post_history`: `PostHistory.from_value(post.strip()) or
   * PostHistory()`. `from_value` of a `str` never gives `None`, so the
   * fallback is never taken.
   */
  function PostEntry(post: string): (r: Result<PostHistory, Error>)
    ensures FromValue(Some(Strip(post))).Ok? ==> r == Ok(FromValue(Some(Strip(post))).value.value)
    ensures FromValue(Some(Strip(post))).Err? ==> r == Err(FromValue(Some(Strip(post))).error)
  {
    var entry :- FromValue(Some(Strip(post)));
    match entry
    case Some(ph) => Ok(ph)
    case None => Ok(PostHistory(None, None))
  }

  /** The `post_history` tuple: each non-empty comma piece parsed in order; the first failure is raised. */
  function PostHistoryField(data: Data): (r: Result<seq<PostHistory>, Error>)
    ensures !Truthy(Get(data, "post_history", Str(""))) ==> r == Ok([])
    ensures Get(data, "post_history", Str("")).Str? ==>
      r == Traverse(NonEmpty(Split(Get(data, "post_history", Str("")).s, ',')), PostEntry)
    ensures Truthy(Get(data, "post_history", Str(""))) && Get(data, "post_history", Str("")).Int? ==>
      r == Err(WrongType("post_history"))
    ensures r.Ok? ==> forall e :: e in r.value ==> e.date.Some? || e.url.Some?
  {
    var pieces :- CommaPieces(data, "post_history", Str(""));
    var posts := NonEmpty(pieces);
    var r := Traverse(posts, PostEntry);
    assert r.Ok? ==> forall i :: 0 <= i < |posts| ==> FromValue(Some(Strip(posts[i]))).Ok?;
    r
  }

  /** `PostHistory.from_value(data.get("resolution"))`; a value that is neither `None` nor a `str` cannot be matched. */
  function ResolutionField(data: Data): (r: Result<Option<PostHistory>, Error>)
    ensures Get(data, "resolution", Null).Null? ==> r == Ok(None)
    ensures Get(data, "resolution", Null).Str? ==> r == FromValue(Some(Get(data, "resolution", Null).s))
    ensures Get(data, "resolution", Null).Int? ==> r == Err(WrongType("resolution"))
  {
    match Get(data, "resolution", Null)
    case Null => FromValue(None)
    case Str(s) => FromValue(Some(s))
    case Int(_) => Err(WrongType("resolution"))
  }

  /** `None` when `superseded_by` is absent or `None`, otherwise `int()` of it. */
  function SupersededByField(data: Data): (r: Result<Option<int>, Error>)
    ensures r == Ok(None) <==> Get(data, "superseded_by", Null).Null?
    ensures Get(data, "superseded_by", Null).Int? ==> r == Ok(Some(Get(data, "superseded_by", Null).i))
    ensures Get(data, "superseded_by", Null).Str? ==>
      r == (if ParseInt(data["superseded_by"].s).Ok? then Ok(Some(ParseInt(data["superseded_by"].s).value))
            else Err(ParseInt(data["superseded_by"].s).error))
  {
    match Get(data, "superseded_by", Null)
    case Null => Ok(None)
    case Int(n) => Ok(Some(n))
    case Str(s) =>
      var n :- ParseInt(s);
      Ok(Some(n))
  }

  /**
   * `PEP.from_json(data)`. The fields are computed in the order the source
   * passes them, so the first field that raises decides the error.
   */
  function FromJson(data: Data): (r: Result<Pep, Error>)
    ensures r.Ok? <==>
      && AuthorsField(data).Ok? && GetInts(data, "requires").Ok? && CreatedField(data).Ok?
      && PythonVersionField(data).Ok? && PostHistoryField(data).Ok? && ResolutionField(data).Ok?
      && GetInts(data, "replaces").Ok? && SupersededByField(data).Ok?
    ensures r.Ok? ==>
      && r.value.number == Get(data, "number", Int(-1))
      && r.value.title == Get(data, "title", Str(""))
      && r.value.sponsor == Get(data, "sponsor", Null)
      && r.value.delegate == Get(data, "delegate", Null)
      && r.value.discussionsTo == Get(data, "discussions_to", Null)
      && r.value.status == Get(data, "status", Null)
      && r.value.pepType == Get(data, "type", Null)
      && r.value.topic == Get(data, "topic", Str(""))
      && r.value.url == Get(data, "url", Str(""))
    ensures r.Ok? ==>
      && r.value.authors == AuthorsField(data).value
      && r.value.requiredPeps == GetInts(data, "requires").value
      && r.value.created == CreatedField(data).value
      && r.value.pythonVersion == PythonVersionField(data).value
      && r.value.postHistory == PostHistoryField(data).value
      && r.value.resolution == ResolutionField(data).value
      && r.value.replacedPeps == GetInts(data, "replaces").value
      && r.value.supersededBy == SupersededByField(data).value
  {
    var authors :- AuthorsField(data);
    var requiredPeps :- GetInts(data, "requires");
    var created :- CreatedField(data);
    var pythonVersion :- PythonVersionField(data);
    var postHistory :- PostHistoryField(data);
    var resolution :- ResolutionField(data);
    var replacedPeps :- GetInts(data, "replaces");
    var supersededBy :- SupersededByField(data);
    Ok(Pep(
      Get(data, "number", Int(-1)),
      Get(data, "title", Str("")),
      authors,
      Get(data, "sponsor", Null),
      Get(data, "delegate", Null),
      Get(data, "discussions_to", Null),
      Get(data, "status", Null),
      Get(data, "type", Null),
      Get(data, "topic", Str("")),
      requiredPeps,
      created,
      pythonVersion,
      postHistory,
      resolution,
      replacedPeps,
      supersededBy,
      Get(data, "url", Str(""))))
  }

  /** The exception a computation raised, if any. */
  function ErrorOf<T>(x: Result<T, Error>): (e: Option<Error>)
    ensures e.None? <==> x.Ok?
    ensures x.Err? ==> e == Some(x.error)
  {
    if x.Err? then Some(x.error) else None
  }

  /** The first exception in a sequence of outcomes taken in order, or `None` when none raised. */
  function FirstError(errs: seq<Option<Error>>): (r: Option<Error>)
    ensures r.None? <==> forall i :: 0 <= i < |errs| ==> errs[i].None?
    ensures r.Some? ==> exists i :: 0 <= i < |errs| && errs[i] == r && forall j :: 0 <= j < i ==> errs[j].None?
  {
    if errs == [] then None
    else if errs[0].Some? then errs[0]
    else
      var r := FirstError(errs[1..]);
      assert r.Some? ==> exists i :: 1 <= i < |errs| && errs[i] == r && forall j :: 1 <= j < i ==> errs[j].None?;
      r
  }

  /** The first outcome decides when it raised; otherwise the rest do. */
  lemma FirstErrorCons(x: Option<Error>, rest: seq<Option<Error>>)
    ensures FirstError([x] + rest) == if x.Some? then x else FirstError(rest)
  {
    assert ([x] + rest)[1..] == rest;
  }

  /** What each field of `from_json` raises, in the order the constructor call evaluates them. */
  function FieldErrors(data: Data): (r: seq<Option<Error>>)
    ensures |r| == 8
  {
    Outcomes(ErrorOf(AuthorsField(data)), ErrorOf(GetInts(data, "requires")), ErrorOf(CreatedField(data)),
      ErrorOf(PythonVersionField(data)), ErrorOf(PostHistoryField(data)), ErrorOf(ResolutionField(data)),
      ErrorOf(GetInts(data, "replaces")), ErrorOf(SupersededByField(data)))
  }

  /** Eight outcomes in order. */
  function Outcomes(a: Option<Error>, b: Option<Error>, c: Option<Error>, d: Option<Error>,
                    e: Option<Error>, f: Option<Error>, g: Option<Error>, h: Option<Error>): (r: seq<Option<Error>>)
    ensures r == [a, b, c, d, e, f, g, h]
  {
    [a] + ([b] + ([c] + ([d] + ([e] + ([f] + ([g] + [h]))))))
  }

  /**
   * `from_json` raises exactly what the first failing field raises, taking
   * the fields in argument order: authors, requires, created,
   * python_version, post_history, resolution, replaces, superseded_by.
   */
  lemma FromJsonFirstError(data: Data)
    ensures ErrorOf(FromJson(data)) == FirstError(FieldErrors(data))
  {
    FirstOfEight(ErrorOf(AuthorsField(data)), ErrorOf(GetInts(data, "requires")), ErrorOf(CreatedField(data)),
      ErrorOf(PythonVersionField(data)), ErrorOf(PostHistoryField(data)), ErrorOf(ResolutionField(data)),
      ErrorOf(GetInts(data, "replaces")), ErrorOf(SupersededByField(data)));
  }

  /** Among eight outcomes in order, the first that raised is the one reported. */
  lemma FirstOfEight(a: Option<Error>, b: Option<Error>, c: Option<Error>, d: Option<Error>,
                     e: Option<Error>, f: Option<Error>, g: Option<Error>, h: Option<Error>)
    ensures FirstError(Outcomes(a, b, c, d, e, f, g, h)) ==
      if a.Some? then a else if b.Some? then b else if c.Some? then c else if d.Some? then d
      else if e.Some? then e else if f.Some? then f else if g.Some? then g else h
  {
    FirstErrorCons(h, []);
    assert [h] + [] == [h];
    FirstErrorCons(g, [h]);
    FirstErrorCons(f, [g] + [h]);
    FirstErrorCons(e, [f] + ([g] + [h]));
    FirstErrorCons(d, [e] + ([f] + ([g] + [h])));
    FirstErrorCons(c, [d] + ([e] + ([f] + ([g] + [h]))));
    FirstErrorCons(b, [c] + ([d] + ([e] + ([f] + ([g] + [h])))));
    FirstErrorCons(a, [b] + ([c] + ([d] + ([e] + ([f] + ([g] + [h]))))));
  }

  /** Pieces that are all non-empty are all kept. */
  lemma {:induction false} NonEmptyKeepsAll(pieces: seq<string>)
    requires forall i :: 0 <= i < |pieces| ==> pieces[i] != []
    ensures NonEmpty(pieces) == pieces
  {
    if pieces != [] {
      NonEmptyKeepsAll(pieces[1..]);
      assert [pieces[0]] + pieces[1..] == pieces;
    }
  }

  /** Dropping empty pieces keeps the order: it works piece by piece across a concatenation. */
  lemma {:induction false} NonEmptyConcat(a: seq<string>, b: seq<string>)
    ensures NonEmpty(a + b) == NonEmpty(a) + NonEmpty(b)
  {
    if a == [] {
      assert a + b == b;
    } else {
      assert (a + b)[1..] == a[1..] + b;
      NonEmptyConcat(a[1..], b);
    }
  }

  /** Dropping empty pieces keeps every other piece as often as it occurs, and no empty one. */
  lemma {:induction false} NonEmptyMultiset(pieces: seq<string>)
    ensures multiset(NonEmpty(pieces)) == multiset(pieces)[[] := 0]
  {
    if pieces != [] {
      NonEmptyMultiset(pieces[1..]);
      assert pieces == [pieces[0]] + pieces[1..];
    }
  }

  /** `", ".join(items)` split on commas: the first item, then each later one behind its space. */
  lemma CommaSplitJoined(items: seq<string>)
    requires |items| >= 1
    requires forall i :: 0 <= i < |items| ==> ',' !in items[i]
    ensures Split(JoinNames(items), ',') == [items[0]] + SpacedAll(items[1..])
  {
    var parts := [items[0]] + SpacedAll(items[1..]);
    JoinSpaced(items);
    forall k | 1 <= k < |parts| ensures ',' !in parts[k] {
      SpacedNoComma(items[k]);
    }
    Text.SplitJoin(parts, ',');
  }

  lemma SpacedNoComma(x: string)
    requires ',' !in x
    ensures ',' !in " " + x
  {
    var t := " " + x;
    forall i | 0 <= i < |t| ensures t[i] != ',' {
      if i > 0 { assert t[i] == x[i - 1]; }
    }
  }

  /** Versions written as the index writes them, `", ".join(versions)`, come back unchanged. */
  lemma PythonVersionRoundTrip(data: Data, versions: seq<string>)
    requires |versions| >= 1
    requires forall i :: 0 <= i < |versions| ==> versions[i] != [] && IsStripped(versions[i]) && ',' !in versions[i]
    requires "python_version" in data && data["python_version"] == Str(JoinNames(versions))
    ensures PythonVersionField(data) == Ok(versions)
  {
    var text := JoinNames(versions);
    assert Get(data, "python_version", Null) == Str(text);
    assert PythonVersionField(data) == Ok(StripEach(NonEmpty(Split(text, ','))));
    CommaSplitJoined(versions);
    KeptVersionPieces(versions);
  }

  /** The pieces of `", ".join(versions)` are all kept, and stripping gives the versions back. */
  lemma KeptVersionPieces(versions: seq<string>)
    requires |versions| >= 1
    requires forall i :: 0 <= i < |versions| ==> versions[i] != [] && IsStripped(versions[i])
    ensures StripEach(NonEmpty([versions[0]] + SpacedAll(versions[1..]))) == versions
  {
    var pieces := [versions[0]] + SpacedAll(versions[1..]);
    SpacedPiecesNonEmpty(versions);
    NonEmptyKeepsAll(pieces);
    StripSpacedPieces(versions);
  }

  /** Stripping the pieces of `", ".join(items)` gives the items back. */
  lemma StripSpacedPieces(items: seq<string>)
    requires |items| >= 1
    requires forall i :: 0 <= i < |items| ==> IsStripped(items[i])
    ensures StripEach([items[0]] + SpacedAll(items[1..])) == items
  {
    var rest := items[1..];
    StripSpacedAll(rest);
    StripStripped(items[0]);
    StripEachCons(items[0], SpacedAll(rest));
    assert [items[0]] + rest == items;
  }

  /** Stripping `" " + n` for each stripped `n` gives the `n` back. */
  lemma StripSpacedAll(ns: seq<string>)
    requires forall i :: 0 <= i < |ns| ==> IsStripped(ns[i])
    ensures StripEach(SpacedAll(ns)) == ns
  {
    var r := StripEach(SpacedAll(ns));
    forall k | 0 <= k < |ns| ensures r[k] == ns[k] {
      StripSpaced(ns[k]);
    }
    Elementwise(r, ns);
  }

  lemma StripEachCons(x: string, xs: seq<string>)
    ensures StripEach([x] + xs) == [Strip(x)] + StripEach(xs)
  {
    Elementwise(StripEach([x] + xs), [Strip(x)] + StripEach(xs));
  }

  /** Sequences with the same elements are equal (stated apart, so the element type's own axioms stay out of the way). */
  lemma Elementwise<T>(r: seq<T>, s: seq<T>)
    requires |r| == |s| && forall k :: 0 <= k < |r| ==> r[k] == s[k]
    ensures r == s
  {
  }

  /** Each piece of `", ".join(items)` is non-empty when the first item is. */
  lemma SpacedPiecesNonEmpty(items: seq<string>)
    requires |items| >= 1 && items[0] != []
    ensures forall i :: 0 <= i < |items| ==> ([items[0]] + SpacedAll(items[1..]))[i] != []
  {
  }

  /**
   * A piece that is only whitespace is not empty, so it is kept, and
   * stripping then leaves an empty version.
   */
  lemma BlankVersionKept(data: Data, version: string)
    requires version != [] && IsStripped(version) && ',' !in version
    requires "python_version" in data && data["python_version"] == Str(version + ", ")
    ensures PythonVersionField(data) == Ok([version, ""])
  {
    var pieces := [version, " "];
    assert Get(data, "python_version", Null) == Str(version + ", ");
    SplitBlankTail(version);
    assert CommaPieces(data, "python_version", Null) == Ok(pieces);
    NonEmptyKeepsAll(pieces);
    StripBlankTail(version);
  }

  lemma SplitBlankTail(a: string)
    requires ',' !in a
    ensures Split(a + ", ", ',') == [a, " "]
  {
    var blank := " ";
    assert a + ", " == a + [','] + blank;
    assert ',' !in blank;
    Text.SplitTwo(a, blank, ',');
  }

  lemma StripBlankTail(a: string)
    requires IsStripped(a)
    ensures StripEach([a, " "]) == [a, ""]
  {
    StripStripped(a);
    StripSpaced([]);
    var blank := " ";
    assert blank + [] == blank;
    var r := StripEach([a, blank]);
    PairEquality(r, a, []);
  }

  /** A two-element sequence is determined by its elements. */
  lemma PairEquality<T>(r: seq<T>, x: T, y: T)
    requires |r| == 2 && r[0] == x && r[1] == y
    ensures r == [x, y]
  {
  }

  /** A missing or `None` `python_version` gives no versions. */
  lemma NoPythonVersion(data: Data)
    requires "python_version" !in data || data["python_version"] == Null
    ensures PythonVersionField(data) == Ok([])
  {
  }

  /** Dates written as the index writes them, `", ".join`, become date-only entries in order. */
  lemma PostHistoryDates(data: Data, dates: seq<Date>)
    requires |dates| >= 1
    requires forall i :: 0 <= i < |dates| ==> ValidDate(dates[i])
    requires "post_history" in data
    requires data["post_history"] == Str(JoinNames(seq(|dates|, i requires 0 <= i < |dates| => FormatDate(dates[i]))))
    ensures PostHistoryField(data) == Ok(seq(|dates|, i requires 0 <= i < |dates| => PostHistory(Some(dates[i]), None)))
  {
    var texts := seq(|dates|, i requires 0 <= i < |dates| => FormatDate(dates[i]));
    forall i | 0 <= i < |texts| ensures ',' !in texts[i] && IsStripped(texts[i]) && texts[i] != [] {
      FormattedPlain(dates[i]);
    }
    CommaSplitJoined(texts);
    DatePiecesParse(dates, texts);
  }

  /** The pieces of `", ".join` over formatted dates are each read back as their date. */
  lemma DatePiecesParse(dates: seq<Date>, texts: seq<string>)
    requires |dates| >= 1 && |texts| == |dates|
    requires forall i :: 0 <= i < |dates| ==> ValidDate(dates[i]) && texts[i] == FormatDate(dates[i])
    requires forall i :: 0 <= i < |texts| ==> IsStripped(texts[i]) && texts[i] != []
    ensures Traverse(NonEmpty([texts[0]] + SpacedAll(texts[1..])), PostEntry) ==
            Ok(seq(|dates|, i requires 0 <= i < |dates| => PostHistory(Some(dates[i]), None)))
  {
    var pieces := [texts[0]] + SpacedAll(texts[1..]);
    NonEmptyKeepsAll(pieces);
    var expected := seq(|dates|, i requires 0 <= i < |dates| => PostHistory(Some(dates[i]), None));
    forall k | 0 <= k < |pieces| ensures PostEntry(pieces[k]) == Ok(expected[k]) {
      if k == 0 { StripStripped(texts[0]); } else { StripSpaced(texts[k]); }
      DateOnlyRoundTrip(dates[k]);
    }
    TraverseAllOk(pieces, PostEntry, expected);
  }

  /** A formatted date is non-empty, has no comma and no surrounding whitespace. */
  lemma FormattedPlain(d: Date)
    requires ValidDate(d)
    ensures var t := FormatDate(d); t != [] && ',' !in t && IsStripped(t)
  {
    var t := FormatDate(d);
    var day := Padded(d.day, 2);
    var year := Padded(d.year, 4);
    var month := MonthAbbreviations[d.month - 1];
    assert t == day + "-" + month + "-" + year;
    assert |month| == 3 && ',' !in month;
    assert t[0] == day[0] && t[10] == year[3];
    forall i | 0 <= i < |t| ensures t[i] != ',' {
      if i < 2 { assert t[i] == day[i]; }
      else if 3 <= i < 6 { assert t[i] == month[i - 3]; }
      else if 7 <= i { assert t[i] == year[i - 7]; }
    }
  }

  /** Where `f` succeeds on every element with the expected value, `Traverse` gives exactly those values. */
  lemma {:induction false} TraverseAllOk<A, B, E>(xs: seq<A>, f: A -> Result<B, E>, ys: seq<B>)
    requires |xs| == |ys|
    requires forall i :: 0 <= i < |xs| ==> f(xs[i]) == Ok(ys[i])
    ensures Traverse(xs, f) == Ok(ys)
  {
    if xs != [] {
      TraverseAllOk(xs[1..], f, ys[1..]);
      assert [ys[0]] + ys[1..] == ys;
    }
  }

  /** A trailing comma leaves an empty last piece, which is dropped. */
  lemma PostHistoryTrailingComma(data: Data, d: Date)
    requires ValidDate(d)
    requires "post_history" in data && data["post_history"] == Str(FormatDate(d) + ",")
    ensures PostHistoryField(data) == Ok([PostHistory(Some(d), None)])
  {
    var t := FormatDate(d);
    FormattedPlain(d);
    assert t + "," == t + [','] + [];
    Text.SplitTwo(t, [], ',');
    assert NonEmpty([t, []]) == [t];
    StripStripped(t);
    DateOnlyRoundTrip(d);
    TraverseAllOk([t], PostEntry, [PostHistory(Some(d), None)]);
  }

  /** A piece that is only whitespace is kept, strips to `""`, and `from_value("")` raises. */
  lemma PostHistoryBlankPiece(data: Data, d: Date)
    requires ValidDate(d)
    requires "post_history" in data && data["post_history"] == Str(FormatDate(d) + ", ")
    ensures PostHistoryField(data) == Err(UnparsablePostHistory(""))
  {
    var t := FormatDate(d);
    assert Get(data, "post_history", Str("")) == Str(t + ", ");
    FormattedPlain(d);
    StripStripped(t);
    DateOnlyRoundTrip(d);
    assert PostEntry(t).Ok?;
    assert PostEntry(" ") == Err(UnparsablePostHistory("")) by {
      StripSpaced([]);
      EmptyIsUnparsable();
    }
    BlankTailFails(t, PostEntry);
  }

  /** After a piece that parses, a blank last piece is kept and its error is the one raised. */
  lemma BlankTailFails(t: string, f: string -> Result<PostHistory, Error>)
    requires t != [] && ',' !in t && f(t).Ok? && f(" ").Err?
    ensures Traverse(NonEmpty(Split(t + ", ", ',')), f) == Err(f(" ").error)
  {
    SplitBlankTail(t);
    NonEmptyKeepsAll([t, " "]);
    assert Traverse([" "], f) == Err(f(" ").error);
    assert [t, " "][1..] == [" "];
  }

  /** Numbers within `int()`'s digit limit written as `", ".join(map(str, numbers))` are read back by `get_ints`. */
  lemma GetIntsRoundTrip(data: Data, field: string, numbers: seq<int>)
    requires |numbers| >= 1
    requires forall i :: 0 <= i < |numbers| ==> DigitCount(numbers[i]) <= MaxStrDigits
    requires field in data
    requires data[field] == Str(JoinNames(Decimals(numbers)))
    ensures GetInts(data, field) == Ok(numbers)
  {
    var texts := Decimals(numbers);
    DecimalsHaveNoComma(numbers);
    CommaSplitJoined(texts);
    var pieces := [texts[0]] + SpacedAll(texts[1..]);
    assert forall k :: 0 <= k < |numbers| ==> pieces[k] == (if k == 0 then "" else " ") + IntToString(numbers[k]) by {
      assert "" + texts[0] == texts[0];
    }
    DecimalPiecesParse(numbers, pieces);
    TraverseAllOk(pieces, ParseInt, numbers);
  }

  /** `str(n)` for each number. */
  function Decimals(numbers: seq<int>): (texts: seq<string>)
    ensures |texts| == |numbers|
    ensures forall i :: 0 <= i < |numbers| ==> texts[i] == IntToString(numbers[i])
  {
    seq(|numbers|, i requires 0 <= i < |numbers| => IntToString(numbers[i]))
  }

  lemma DecimalsHaveNoComma(numbers: seq<int>)
    ensures forall i :: 0 <= i < |numbers| ==> ',' !in Decimals(numbers)[i]
  {
    forall i | 0 <= i < |numbers| ensures ',' !in Decimals(numbers)[i] {
      NoCommaInInt(numbers[i]);
    }
  }

  /** Each piece of `", ".join(map(str, numbers))` is read by `int()` as its number. */
  lemma DecimalPiecesParse(numbers: seq<int>, pieces: seq<string>)
    requires |pieces| == |numbers|
    requires forall k :: 0 <= k < |numbers| ==> pieces[k] == (if k == 0 then "" else " ") + IntToString(numbers[k])
    requires forall k :: 0 <= k < |numbers| ==> DigitCount(numbers[k]) <= MaxStrDigits
    ensures forall k :: 0 <= k < |numbers| ==> ParseInt(pieces[k]) == Ok(numbers[k])
  {
    forall k | 0 <= k < |numbers| ensures ParseInt(pieces[k]) == Ok(numbers[k]) {
      DecimalParses(numbers[k], if k == 0 then "" else " ");
    }
  }

  lemma DecimalParses(n: int, pre: string)
    requires pre == [] || pre == " "
    requires DigitCount(n) <= MaxStrDigits
    ensures ParseInt(pre + IntToString(n)) == Ok(n)
  {
    assert AllIntSpace(pre) by {
      if pre != [] { assert IsIntSpace(pre[0]); }
    }
    ParseIntToString(pre, n, []);
    assert pre + IntToString(n) + [] == pre + IntToString(n);
  }

  lemma NoCommaInInt(n: int)
    ensures ',' !in IntToString(n)
  {
    var m: nat := if n < 0 then -n else n;
    assert AllDigits(NatToString(m));
    if n < 0 {
      assert IntToString(n) == "-" + NatToString(m);
      assert forall i :: 1 <= i < |IntToString(n)| ==> IntToString(n)[i] == NatToString(m)[i - 1];
    }
  }

  /** An empty string is one empty piece, and `int("")` raises. */
  lemma GetIntsEmptyString(data: Data, field: string)
    requires field in data && data[field] == Str("")
    ensures GetInts(data, field) == Err(InvalidInteger(""))
  {
    EmptyIsInvalid();
    assert Split("", ',') == [""];
  }

  /** `superseded_by` given as the decimal text of a number within the digit limit is that number. */
  lemma SupersededByText(data: Data, n: int)
    requires DigitCount(n) <= MaxStrDigits
    requires "superseded_by" in data && data["superseded_by"] == Str(IntToString(n))
    ensures SupersededByField(data) == Ok(Some(n))
  {
    ParseIntOfString(n);
  }

  /** `parse_date("")` raises, so a record without `created` is always rejected. */
  lemma MissingCreatedRejected(data: Data)
    requires "created" !in data
    ensures FromJson(data).Err?
  {
  }

  /** `get_ints` reads `data["requires"]`, so when the authors are fine a missing `requires` is the error raised. */
  lemma MissingRequiresRejected(data: Data)
    requires AuthorsField(data).Ok? && "requires" !in data
    ensures FromJson(data) == Err(MissingKey("requires"))
  {
  }

  /** The record `MinimalRecord` reads: `requires` and `replaces` present and `None`, and a creation date. */
  predicate IsMinimal(data: Data, d: Date)
    requires ValidDate(d)
  {
    data == map["requires" := Null, "replaces" := Null, "created" := Str(FormatDate(d))]
  }

  lemma MinimalAuthors(data: Data, d: Date)
    requires ValidDate(d) && IsMinimal(data, d)
    ensures AuthorsField(data) == Ok([""])
  {
  }

  lemma MinimalNumbers(data: Data, d: Date)
    requires ValidDate(d) && IsMinimal(data, d)
    ensures GetInts(data, "requires") == Ok([]) && GetInts(data, "replaces") == Ok([])
  {
  }

  lemma MinimalCreated(data: Data, d: Date)
    requires ValidDate(d) && IsMinimal(data, d)
    ensures CreatedField(data) == Ok(d)
  {
    ParseFormatDate(d);
    assert data["created"] == Str(FormatDate(d));
  }

  lemma MinimalOptionalFields(data: Data, d: Date)
    requires ValidDate(d) && IsMinimal(data, d)
    ensures PythonVersionField(data) == Ok([])
    ensures PostHistoryField(data) == Ok([])
    ensures ResolutionField(data) == Ok(None)
    ensures SupersededByField(data) == Ok(None)
  {
    assert Get(data, "python_version", Null) == Null;
    assert Get(data, "post_history", Str("")) == Str("");
    assert Get(data, "resolution", Null) == Null;
    assert Get(data, "superseded_by", Null) == Null;
  }

  lemma MinimalCopiedFields(data: Data, d: Date)
    requires ValidDate(d) && IsMinimal(data, d)
    ensures Get(data, "number", Int(-1)) == Int(-1)
    ensures Get(data, "title", Str("")) == Str("") && Get(data, "topic", Str("")) == Str("") && Get(data, "url", Str("")) == Str("")
    ensures Get(data, "sponsor", Null) == Null && Get(data, "delegate", Null) == Null
    ensures Get(data, "discussions_to", Null) == Null
    ensures Get(data, "status", Null) == Null && Get(data, "type", Null) == Null
  {
  }

  /**
   * The smallest record `from_json` accepts: `requires` and `replaces`
   * present and `None`, and a creation date. Every other field takes its
   * default.
   */
  lemma MinimalRecord(data: Data, d: Date)
    requires ValidDate(d) && IsMinimal(data, d)
    ensures FromJson(data) == Ok(Pep(
      Int(-1), Str(""), [""], Null, Null, Null, Null, Null, Str(""),
      [], d, [], [], None, [], None, Str("")))
  {
    MinimalAuthors(data, d);
    MinimalNumbers(data, d);
    MinimalCreated(data, d);
    MinimalOptionalFields(data, d);
    MinimalCopiedFields(data, d);
  }
}
