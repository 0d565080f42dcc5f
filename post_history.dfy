/**
 * `PostHistory` and `PostHistory.from_value`: one entry of a PEP's post
 * history, classified by three fixed patterns tried in order.
 *
 * The patterns are written as predicates over the text, following Python's
 * `re` rules for them: `re.match` anchors at the start, `$` matches at the
 * end or just before a final newline, `.` matches anything but a newline,
 * and `.+` is greedy.
 */
module PostHistories {
  import opened Wrappers
  import opened Errors
  import opened Text
  import opened Dates

  /** An entry of the post history: a date, a link, or both. */
  datatype PostHistory = PostHistory(date: Option<Date>, url: Option<string>)

  /** `\w` restricted to ASCII: a letter, a digit or an underscore. */
  predicate IsWordChar(c: char) {
    'a' <= c <= 'z' || 'A' <= c <= 'Z' || IsDigit(c) || c == '_'
  }

  /** Python's `$` without `re.MULTILINE`, at position `i` of `s`. */
  predicate AtEnd(s: string, i: int) {
    i == |s| || (i == |s| - 1 && 0 <= i && s[i] == '\n')
  }

  /** `\d{2}-\w{3}-\d{4}` matches the eleven characters of `s` from `i`. */
  predicate DateShapedAt(s: string, i: nat) {
    && i + 11 <= |s|
    && IsDigit(s[i]) && IsDigit(s[i + 1])
    && s[i + 2] == '-'
    && IsWordChar(s[i + 3]) && IsWordChar(s[i + 4]) && IsWordChar(s[i + 5])
    && s[i + 6] == '-'
    && IsDigit(s[i + 7]) && IsDigit(s[i + 8]) && IsDigit(s[i + 9]) && IsDigit(s[i + 10])
  }

  /** `DATE_ONLY`, `^\d{2}-\w{3}-\d{4}$`. */
  predicate DateOnly(s: string) {
    DateShapedAt(s, 0) && AtEnd(s, 11)
  }

  /** `URL_ONLY`, `^http`. */
  predicate UrlOnly(s: string) {
    |s| >= 4 && s[..4] == "http"
  }

  /**
   * The parts of `DATE_AND_URL`, `` ^`(?P<date>\d{2}-\w{3}-\d{4}).+<(?P<url>https:.*)>`__$ ``,
   * that do not depend on where the `<` is: the backtick and date, the closing
   * `` >`__ `` at `q` followed by the end, and no newline in between.
   */
  predicate DateAndUrlFrame(s: string, q: int) {
    && |s| >= 1 && s[0] == '`' && DateShapedAt(s, 1)
    && 12 <= q && q + 4 <= |s|
    && s[q..q + 4] == ">`__" && AtEnd(s, q + 4)
    && '\n' !in s[12..q]
  }

  /** The `<` of `DATE_AND_URL` can be at `p`: after at least one filler character, followed by `https:`. */
  predicate Opening(s: string, p: int, q: int) {
    12 < p && p + 7 <= q <= |s| && s[p] == '<' && s[p + 1..p + 7] == "https:"
  }

  /** `DATE_AND_URL` matches `s` with the `<` at `p` and the closing `` >`__ `` at `q`. */
  predicate DateAndUrlAt(s: string, p: int, q: int) {
    DateAndUrlFrame(s, q) && Opening(s, p, q)
  }

  /** Where the closing `` >`__ `` must start for `$` to match after it. */
  function CloseStart(s: string): int {
    if |s| > 0 && s[|s| - 1] == '\n' then |s| - 5 else |s| - 4
  }

  /** The closing `` >`__ `` can only be in one place. */
  lemma FrameAtCloseStart(s: string, q: int)
    requires DateAndUrlFrame(s, q)
    ensures q == CloseStart(s)
  {
  }

  /** The largest `p' <= p` where the `<` can be, if any. */
  function LastOpening(s: string, q: int, p: int): (r: Option<int>)
    ensures r.Some? ==> r.value <= p && Opening(s, r.value, q)
    ensures r.Some? ==> forall y :: r.value < y <= p ==> !Opening(s, y, q)
    ensures r.None? ==> forall y :: y <= p ==> !Opening(s, y, q)
    decreases p
  {
    if p <= 12 then None
    else if Opening(s, p, q) then Some(p)
    else LastOpening(s, q, p - 1)
  }

  /**
   * The match `re` finds for `DATE_AND_URL`: the greedy `.+` makes the `<`
   * the last place where the rest of the pattern still matches.
   */
  function DateAndUrlMatch(s: string): (r: Option<(int, int)>)
    ensures r.Some? ==> DateAndUrlAt(s, r.value.0, r.value.1)
    ensures r.Some? ==> forall p, q :: DateAndUrlAt(s, p, q) ==> q == r.value.1 && p <= r.value.0
    ensures r.None? ==> forall p, q :: !DateAndUrlAt(s, p, q)
  {
    var q := CloseStart(s);
    if !DateAndUrlFrame(s, q) then
      assert forall p, q' :: !DateAndUrlAt(s, p, q') by {
        forall p, q' | DateAndUrlAt(s, p, q') ensures false { FrameAtCloseStart(s, q'); }
      }
      None
    else
      var o := LastOpening(s, q, q - 7);
      assert forall p, q' :: DateAndUrlAt(s, p, q') ==> q' == q by {
        forall p, q' | DateAndUrlAt(s, p, q') ensures q' == q { FrameAtCloseStart(s, q'); }
      }
      if o.None? then None else Some((o.value, q))
  }

  /**
   * `PostHistory.from_value`: `None` for `None`; otherwise the first of
   * `DATE_ONLY`, `URL_ONLY` and `DATE_AND_URL` that matches decides the entry,
   * and a value none of them matches raises `UnparsablePostHistory`. The
   * lemmas below state each branch.
   */
  function FromValue(value: Option<string>): (r: Result<Option<PostHistory>, Error>)
    ensures value.None? <==> r == Ok(None)
    ensures value.Some? && r.Ok? ==> r.value.Some? && (r.value.value.date.Some? || r.value.value.url.Some?)
  {
    match value
    case None => Ok(None)
    case Some(s) =>
      if DateOnly(s) then
        var d :- ParseDate(s);
        Ok(Some(PostHistory(Some(d), None)))
      else if UrlOnly(s) then
        Ok(Some(PostHistory(None, Some(s))))
      else
        match DateAndUrlMatch(s)
        case Some((p, q)) =>
          var d :- ParseDate(s[1..12]);
          Ok(Some(PostHistory(Some(d), Some(s[p + 1..q]))))
        case None => Err(UnparsablePostHistory(s))
  }

  /** A value that `DATE_ONLY` matches is parsed as a date, and a date error is raised as is. */
  lemma FromValueDateOnly(s: string)
    requires DateOnly(s)
    ensures ParseDate(s).Ok? ==> FromValue(Some(s)) == Ok(Some(PostHistory(Some(ParseDate(s).value), None)))
    ensures ParseDate(s).Err? ==> FromValue(Some(s)) == Err(MalformedDate(s))
  {
  }

  /** Otherwise a value starting with `http` is a link and nothing else. */
  lemma FromValueUrlOnly(s: string)
    requires !DateOnly(s) && UrlOnly(s)
    ensures FromValue(Some(s)) == Ok(Some(PostHistory(None, Some(s))))
  {
  }

  /**
   * Otherwise, when `DATE_AND_URL` matches with its `<` at `p` as late as
   * possible, the date is read from the eleven characters after the backtick
   * and the link is the text between that `<` and the closing `` >`__ ``.
   */
  lemma FromValueDateAndUrl(s: string, p: int, q: int)
    requires !DateOnly(s) && !UrlOnly(s)
    requires DateAndUrlAt(s, p, q)
    requires forall p' :: DateAndUrlAt(s, p', q) ==> p' <= p
    ensures var date := ParseDate(s[1..12]);
      && (date.Ok? ==> FromValue(Some(s)) == Ok(Some(PostHistory(Some(date.value), Some(s[p + 1..q])))))
      && (date.Err? ==> FromValue(Some(s)) == Err(MalformedDate(s[1..12])))
  {
    var m := DateAndUrlMatch(s);
    assert m.Some? && m.value == (p, q);
  }

  /** A value no pattern matches raises `UnparsablePostHistory` with the value. */
  lemma FromValueUnparsable(s: string)
    requires !DateOnly(s) && !UrlOnly(s)
    requires forall p, q :: !DateAndUrlAt(s, p, q)
    ensures FromValue(Some(s)) == Err(UnparsablePostHistory(s))
  {
  }

  /** A date written as the index writes it is a date-only entry. */
  lemma DateOnlyRoundTrip(d: Date)
    requires ValidDate(d)
    ensures FromValue(Some(FormatDate(d))) == Ok(Some(PostHistory(Some(d), None)))
  {
    FormattedIsDateShaped(d, [], []);
    assert [] + FormatDate(d) + [] == FormatDate(d);
    ParseFormatDate(d);
  }

  /** Any text starting with `http` is a URL-only entry holding the whole text. */
  lemma UrlOnlyRoundTrip(rest: string)
    ensures FromValue(Some("http" + rest)) == Ok(Some(PostHistory(None, Some("http" + rest))))
  {
    var s := "http" + rest;
    assert s[..4] == "http";
    assert !IsDigit(s[0]);
  }

  lemma FormattedIsDateShaped(d: Date, pre: string, post: string)
    requires ValidDate(d)
    ensures DateShapedAt(pre + FormatDate(d) + post, |pre|)
  {
    var f := FormatDate(d);
    var s := pre + f + post;
    var m := MonthAbbreviations[d.month - 1];
    assert forall i :: 0 <= i < 11 ==> s[|pre| + i] == f[i];
    assert f[3..6] == m;
    assert forall k :: 0 <= k < 12 ==> IsWordChar(MonthAbbreviations[k][0]) && IsWordChar(MonthAbbreviations[k][1]) && IsWordChar(MonthAbbreviations[k][2]);
  }

  predicate OpensAt(url: string, i: int) {
    0 <= i && i + 7 <= |url| && url[i..i + 7] == "<https:"
  }

  lemma NoAngleNoOpening(url: string)
    requires '<' !in url
    ensures NoOpeningIn(url)
  {
    forall i ensures !OpensAt(url, i) {
      if 0 <= i && i + 7 <= |url| {
        assert url[i..i + 7][0] == url[i];
      }
    }
  }

  /** An opening after the one at `p` lies inside the link that follows `p`. */
  lemma OpeningInsideUrl(s: string, url: string, p: int, q: int, y: int)
    requires 0 <= p < y && q <= |s| && p + 1 <= q && s[p + 1..q] == url
    requires Opening(s, y, q)
    ensures OpensAt(url, y - p - 1)
  {
    var k := y - p - 1;
    assert forall j :: 0 <= j < |url| ==> url[j] == s[p + 1 + j];
    assert url[k..k + 7] == s[y..y + 7];
    assert s[y..y + 7] == [s[y]] + s[y + 1..y + 7];
  }

  /** `url` holds no `<https:` of its own. */
  ghost predicate NoOpeningIn(url: string) {
    forall i :: !OpensAt(url, i)
  }

  /**
   * The combined form gives back its date and its link, whatever the filler
   * between them holds (even another `<https:`): the split is at the last
   * possible `<`.
   */
  lemma DateAndUrlRoundTrip(d: Date, filler: string, url: string)
    requires ValidDate(d)
    requires filler != [] && '\n' !in filler
    requires |url| >= 6 && url[..6] == "https:" && '\n' !in url && NoOpeningIn(url)
    ensures FromValue(Some("`" + FormatDate(d) + filler + "<" + url + ">`__")) ==
            Ok(Some(PostHistory(Some(d), Some(url))))
  {
    var f := FormatDate(d);
    var s := "`" + f + filler + "<" + url + ">`__";
    var p := 12 + |filler|;
    var q := p + 1 + |url|;
    assert s == "`" + f + (filler + "<" + url + ">`__");
    FormattedIsDateShaped(d, "`", filler + "<" + url + ">`__");
    assert s[1..12] == f;
    assert s[p + 1..q] == url;
    assert s[q..q + 4] == ">`__";
    assert s[12..q] == filler + "<" + url;
    assert DateAndUrlAt(s, p, q);
    forall p' | DateAndUrlAt(s, p', q) ensures p' <= p {
      if p' > p {
        OpeningInsideUrl(s, url, p, q, p');
      }
    }
    assert !DateOnly(s) && !UrlOnly(s);
    ParseFormatDate(d);
  }

  lemma SampleDate()
    ensures ValidDate(Date(2019, 8, 15)) && FormatDate(Date(2019, 8, 15)) == "15-Aug-2019"
  {
    assert Padded(15, 2) == "15" && Padded(2019, 4) == "2019";
  }

  /**
   * The sample entry `` `15-Aug-2019 <https://discuss.python.org/t/2154>`__ ``
   * (written here as a concatenation) reads as its date and its link.
   */
  lemma SampleDateAndUrl(entry: string, url: string)
    requires url == "https://discuss.python.org/t/2154"
    requires entry == "`" + "15-Aug-2019" + " " + "<" + url + ">`__"
    ensures FromValue(Some(entry)) == Ok(Some(PostHistory(Some(Date(2019, 8, 15)), Some(url))))
  {
    SampleDate();
    SampleUrl(url);
    DateAndUrlRoundTrip(Date(2019, 8, 15), " ", url);
  }

  lemma SampleUrl(url: string)
    requires url == "https://discuss.python.org/t/2154"
    ensures |url| >= 6 && url[..6] == "https:" && '\n' !in url && NoOpeningIn(url)
  {
    assert '<' !in url;
    NoAngleNoOpening(url);
    assert '\n' !in url;
    assert url[..6] == "https:";
  }

  /**
   * With two candidate `<https:` the greedy `.+` takes the earlier one into the
   * filler, so the link is the text after the last one.
   */
  lemma GreedySplitAtLastOpening(entry: string)
    requires entry == "`" + "15-Aug-2019" + " <https://a> " + "<" + "https://b" + ">`__"
    ensures FromValue(Some(entry)) == Ok(Some(PostHistory(Some(Date(2019, 8, 15)), Some("https://b"))))
  {
    SampleDate();
    NoAngleNoOpening("https://b");
    DateAndUrlRoundTrip(Date(2019, 8, 15), " <https://a> ", "https://b");
  }

  /** A date-shaped value with an unknown month is a date error: no later pattern is tried. */
  lemma DateShapedUnknownMonth()
    ensures FromValue(Some("01-Xyz-2025")) == Err(MalformedDate("01-Xyz-2025"))
  {
    assert DateOnly("01-Xyz-2025");
    UnknownMonthRejected();
  }

  /** The empty string matches no pattern. */
  lemma EmptyIsUnparsable()
    ensures FromValue(Some("")) == Err(UnparsablePostHistory(""))
  {
  }
}
