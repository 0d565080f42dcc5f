# Peplum core: PEP record normalisation and the PEP collection

This project models, in Dafny, the two pure pieces at the heart of peplum, a
terminal browser for the Python Enhancement Proposal (PEP) index.

1. **Record normalisation** (`src/peplum/peps/pep.py`). The model covers
   `parse_date`, which reads `DD-Mon-YYYY` dates, and the three patterns
   `DATE_ONLY`, `URL_ONLY` and `DATE_AND_URL`. It covers
   `PostHistory.from_value`, which tries those patterns in order, and
   `PEP._authors`, which splits an author string on commas except before
   ` +Jr`. It also covers `PEP.from_json` with its local `get_ints`: it
   builds one record from one raw JSON mapping, with per-field defaults,
   comma-list splitting, integer parsing and post-history parsing.
2. **The collection** (`src/peplum/app/data/peps.py`). `PEPs` is a dict from
   PEP number to record. When two records share a number, the later one
   replaces the value but keeps the key's first place. The collection
   supports length, membership by record or by number, and iteration. It
   has three `Counter` aggregates, over status, type and Python version; the
   version aggregate has a `""` bucket for records with no version. It also
   models the three count records (`StatusCount`, `TypeCount`,
   `PythonVersionCount`), whose `==` and `>` look at the key only, and the
   comparisons `functools.total_ordering` derives from them.

Everything is pure: datatypes, functions and lemmas. Python's exceptions
become `Err` values of one `Error` datatype (`wrappers.dfy`). A raw JSON
scalar is a `Value` (`Null`, `Str` or `Int`). The fields the builder copies
unchecked keep that raw value, because Python stores whatever the mapping
holds there. Python's `dict` and `Counter` are one insertion-ordered
dictionary module (`ordered_dict.dfy`). The Python built-ins the core relies
on are written out: `str.strip`, `str.split`, `int()` and string ordering
(`text.dfy`, `integers.dfy`).

Points where the code's behaviour is easy to misread:

- The author split keeps a comma only when it is followed by **one or more**
  spaces and then `Jr` (`,(?! +Jr)`). With no space, as in `Smith,Jr`, the
  comma splits.
- `python_version` and `post_history` drop pieces that are empty **before**
  stripping. A whitespace-only piece is kept: it becomes a `""` version, and
  as a post-history piece it reaches `from_value("")`, which raises. The
  `or PostHistory()` fallback is never taken, since `from_value` of a string
  never returns `None`.
- `get_ints` reads `data[field]`, so a record without a `requires` or
  `replaces` key is rejected with a key error, not read as empty.
- `int()` skips less whitespace than `str.strip()`. It skips `\t\n\v\f\r`,
  the space and non-ASCII whitespace, but not the separators U+001C to
  U+001F, so `int("\x1c5")` raises although `"\x1c5".strip()` is `"5"`.
- `python_versions` on an empty collection raises, because `reduce` is given
  no initial value.
- `status` and `type` are not checked against the nine statuses and three
  types. They are compared as raw values, so a missing status (`None`)
  cannot be ordered.

## Model

| member | source | states |
|---|---|---|
| `Dates.ParseDate` | src/peplum/peps/pep.py:39-59 | succeeds exactly when the text spells `%d-%b-%Y` (day `01`-`31`, `1`-`9` or space-digit; English month abbreviation in any case; four-digit year) and the date is a valid calendar date, returning the one date it spells; otherwise `MalformedDate` carrying the text |
| `Dates.ParseFormatDate` | src/peplum/peps/pep.py:39-59 | a valid date written as the index writes it (`DD-Mon-YYYY`) parses back to itself |
| `Dates.EnglishMonths` | tests/unit/test_pep_dates.py:35-50 | `01-<Mon>-2025` is 2025-m-01 for each English abbreviation Jan..Dec, from a fixed table with no locale involved |
| `Dates.ThirtyFirstOfAprilRejected` | src/peplum/peps/pep.py:57 | `31-Apr-2025` is rejected with `MalformedDate` |
| `Dates.UnknownMonthRejected` | src/peplum/peps/pep.py:57 | `01-Xyz-2025` is rejected with `MalformedDate` |
| `Dates.SpellsUnique` | src/peplum/peps/pep.py:57 | a text spells at most one date |
| `PostHistories.DateAndUrlMatch` | src/peplum/peps/pep.py:67-69 | finds a match of `DATE_AND_URL` exactly when one exists, with the closing `` >`__ `` forced to the end and the `<` at the last workable place (the greedy `.+`) |
| `PostHistories.FromValue` | src/peplum/peps/pep.py:84-101 | `None` gives `None` and only `None` does; a string that parses gives an entry with a date or a link |
| `PostHistories.FromValueDateOnly` | src/peplum/peps/pep.py:95-96 | a `DATE_ONLY` match is a date-only entry, and a date error is raised as is, with no later pattern tried |
| `PostHistories.FromValueUrlOnly` | src/peplum/peps/pep.py:97-98 | otherwise a string starting `http` is a link-only entry holding the whole text |
| `PostHistories.FromValueDateAndUrl` | src/peplum/peps/pep.py:99-100 | otherwise, for a `DATE_AND_URL` match with its `<` as late as possible, the date is read from the eleven characters after the backtick and the link is the text between that `<` and the closing `` >`__ `` |
| `PostHistories.FromValueUnparsable` | src/peplum/peps/pep.py:101 | a string no pattern matches raises `UnparsablePostHistory` with the string |
| `PostHistories.DateOnlyRoundTrip` | src/peplum/peps/pep.py:63 | a formatted valid date is a date-only entry holding that date |
| `PostHistories.UrlOnlyRoundTrip` | src/peplum/peps/pep.py:65 | any text starting `http` is a link-only entry of the whole text |
| `PostHistories.DateAndUrlRoundTrip` | src/peplum/peps/pep.py:67-69 | `` `date filler <url>`__ `` gives back the date and the url for any non-empty filler, when the url starts `https:` and holds no `<https:` of its own |
| `PostHistories.SampleDateAndUrl` | tests/unit/test_peps.py:82 | `` `15-Aug-2019 <https://discuss.python.org/t/2154>`__ `` gives 2019-08-15 and that link |
| `PostHistories.GreedySplitAtLastOpening` | src/peplum/peps/pep.py:68 | with two `<https:` candidates the link is the text after the last one |
| `PostHistories.DateShapedUnknownMonth` | src/peplum/peps/pep.py:95-96 | `01-Xyz-2025` matches `DATE_ONLY` and then fails as a date |
| `PostHistories.EmptyIsUnparsable` | src/peplum/peps/pep.py:101 | `from_value("")` raises `UnparsablePostHistory` |
| `Authors.SplitAuthors` | src/peplum/peps/pep.py:144 | splitting on `,(?! +Jr)` gives one more piece than splitting commas; the pieces joined with commas give the input back; each piece holds no splitting comma |
| `Authors.SplitJoin` | src/peplum/peps/pep.py:144 | joining pieces with commas and splitting gives the pieces back, when no later piece starts with ` +Jr` |
| `Authors.AuthorsOf` | src/peplum/peps/pep.py:153-175 | one author per piece of the split, each piece stripped |
| `Authors.AuthorsOfJoinNames` | src/peplum/peps/pep.py:153-175 | `_authors(", ".join(names))` gives `names` back for stripped names when no later name starts with `Jr` |
| `Authors.EmptyIsOneEmptyAuthor` | src/peplum/peps/pep.py:175 | `_authors("")` is `("",)` |
| `Authors.FourAuthors` | tests/unit/test_peps.py:18 | the four-name sample gives exactly those four names |
| `Authors.JuniorKept` | src/peplum/peps/pep.py:144 | `Smith, Jr, Jones` gives `Smith, Jr` and `Jones` |
| `Authors.JuniorWithoutSpaceSplits` | src/peplum/peps/pep.py:144 | `Smith,Jr` splits into `Smith` and `Jr` |
| `Authors.CommaWithoutSpace` | src/peplum/peps/pep.py:144 | a comma directly before a non-space always splits |
| `Text.Split` | src/peplum/peps/pep.py:190 | `str.split(",")` has one more piece than commas, pieces hold no comma, and joining them gives the text back |
| `Text.SplitJoin` | src/peplum/peps/pep.py:190 | splitting a join of comma-free pieces gives the pieces back |
| `Text.Strip` | src/peplum/peps/pep.py:175 | `str.strip()` returns the infix left after removing whitespace at both ends, with no whitespace at either end |
| `Text.StripPadded` | src/peplum/peps/pep.py:175 | stripping whitespace-padded stripped text gives that text |
| `Integers.IntStrip` | src/peplum/peps/pep.py:190 | the text `int()` reads is the infix left after removing, at both ends, the characters `int()` skips (`\t\n\v\f\r`, space, non-ASCII whitespace; not U+001C-U+001F), with none left at either end |
| `Integers.IntStripPadded` | src/peplum/peps/pep.py:190 | text with none of those characters at its ends, padded with them, reads as that text |
| `Integers.ParseInt` | src/peplum/peps/pep.py:190 | `int()` succeeds exactly when the text without the characters it skips at both ends is a decimal literal (optional sign, digits with single underscores) of at most 4300 digits, underscores not counted, with its value; otherwise `InvalidInteger` |
| `Integers.ParseIntToString` | src/peplum/peps/pep.py:190 | `int(str(n)) == n` for `n` within the 4300-digit limit, whatever characters `int()` skips surround the digits |
| `Integers.TooManyDigitsRejected` | src/peplum/peps/pep.py:190 | a literal with more than 4300 digits raises `InvalidInteger`, whatever its sign and underscores |
| `Integers.DigitLimitBoundary` | src/peplum/peps/pep.py:190 | `int("1" * 4301)` raises and `int("1" * 4300)` does not |
| `Integers.SeparatorNotSkipped` | src/peplum/peps/pep.py:190 | `"\x1c5".strip()` is `"5"` but `int("\x1c5")` raises `InvalidInteger` |
| `PepRecord.FromJson` | src/peplum/peps/pep.py:178-221 | succeeds exactly when every parsed field does; then `number` defaults to -1, `title`, `topic` and `url` to `""`, `sponsor`, `delegate`, `discussions_to`, `status` and `type` to `None`, all copied unchecked, and the other fields are the parsed ones |
| `PepRecord.FirstError` | src/peplum/peps/pep.py:193-221 | the first outcome that raised, every earlier one having succeeded; none exactly when no outcome raised |
| `PepRecord.FromJsonFirstError` | src/peplum/peps/pep.py:193-221 | `from_json` raises what the first failing field raises, taking the fields in argument order: authors, requires, created, python_version, post_history, resolution, replaces, superseded_by; it raises nothing exactly when no field does |
| `PepRecord.MinimalRecord` | src/peplum/peps/pep.py:193-221 | a mapping with only `requires`/`replaces` set to `None` and a date gives a record of defaults: number -1, empty strings, `("",)` authors, no versions, no post history |
| `PepRecord.MissingCreatedRejected` | src/peplum/peps/pep.py:204 | a mapping without `created` is always rejected |
| `PepRecord.AuthorsField` | src/peplum/peps/pep.py:196 | a missing `authors` gives `("",)`; a string is split by `_authors`; any other value raises |
| `PepRecord.GetInts` | src/peplum/peps/pep.py:188-191 | an absent key raises a key error; a non-string gives `()`; a string gives `int()` of each comma piece in order, the first failure raised |
| `PepRecord.GetIntsRoundTrip` | src/peplum/peps/pep.py:188-191 | numbers within the 4300-digit limit, written as `", ".join(map(str, numbers))`, are read back |
| `PepRecord.GetIntsEmptyString` | src/peplum/peps/pep.py:190 | an empty string is one empty piece, and `int("")` raises |
| `PepRecord.MissingRequiresRejected` | src/peplum/peps/pep.py:189 | with valid authors, a missing `requires` is the error raised |
| `PepRecord.CreatedField` | src/peplum/peps/pep.py:204 | a missing `created` raises `MalformedDate("")`; a string is parsed; any other value raises |
| `PepRecord.CommaPieces` | src/peplum/peps/pep.py:207 | `(value or "").split(",")`: a false value gives one empty piece, a string its comma pieces, a true non-string raises |
| `PepRecord.PythonVersionField` | src/peplum/peps/pep.py:205-209 | a missing or false `python_version` gives `()`; a string gives its non-empty comma pieces in order, each stripped; a true integer raises, and nothing else does |
| `PepRecord.PythonVersionRoundTrip` | src/peplum/peps/pep.py:205-209 | versions written as `", ".join(versions)` come back unchanged |
| `PepRecord.BlankVersionKept` | src/peplum/peps/pep.py:205-209 | `"3.13, "` gives `("3.13", "")`: a whitespace-only piece is kept and strips to `""` |
| `PepRecord.NoPythonVersion` | src/peplum/peps/pep.py:207 | an absent or `None` `python_version` gives `()` |
| `PepRecord.NonEmpty` | src/peplum/peps/pep.py:209 | keeps exactly the non-empty pieces |
| `PepRecord.NonEmptyConcat` | src/peplum/peps/pep.py:208-209 | the filter works piece by piece and keeps the order: filtering a concatenation is concatenating the filtered parts |
| `PepRecord.NonEmptyMultiset` | src/peplum/peps/pep.py:208-209 | every non-empty piece is kept as often as it occurs, and no empty piece is |
| `PepRecord.PostEntry` | src/peplum/peps/pep.py:211 | a kept piece is stripped and parsed by `from_value`, whose result or error it returns |
| `PepRecord.PostHistoryField` | src/peplum/peps/pep.py:210-214 | a missing or false `post_history` gives `()`; a string gives `from_value` of each stripped non-empty comma piece in order, raising the first failure; a true integer raises; every entry built has a date or a link |
| `PepRecord.PostHistoryDates` | src/peplum/peps/pep.py:210-214 | dates written as `", ".join` become date-only entries in the same order |
| `PepRecord.PostHistoryTrailingComma` | src/peplum/peps/pep.py:210-214 | a trailing comma leaves an empty last piece, which is dropped |
| `PepRecord.PostHistoryBlankPiece` | src/peplum/peps/pep.py:210-214 | a trailing `", "` leaves a blank piece, which is kept and makes `from_value("")` raise |
| `PepRecord.ResolutionField` | src/peplum/peps/pep.py:215 | `None` or absent gives no resolution; a string goes through `from_value` |
| `PepRecord.SupersededByField` | src/peplum/peps/pep.py:217-219 | `None` exactly when the value is `None` or absent; an integer is kept; a string is read by `int()` |
| `PepRecord.SupersededByText` | src/peplum/peps/pep.py:217-219 | the decimal text of a number within the 4300-digit limit is read as that number |
| `OrderedDicts.FromValues` | src/peplum/app/data/peps.py:96-98 | the dict comprehension keyed by number has exactly the records' numbers as keys, each once |
| `OrderedDicts.FromValuesLastWins` | src/peplum/app/data/peps.py:96-98 | the value kept under a number is the last record with that number |
| `OrderedDicts.FromValuesKeepsLast` | src/peplum/app/data/peps.py:96-98 | every value kept is the last record with its number |
| `OrderedDicts.FromValuesFirstAppearance` | src/peplum/app/data/peps.py:96-98 | keys come in the order in which each number first appears |
| `OrderedDicts.FromDistinctValues` | src/peplum/app/data/peps.py:96-98 | with no repeated key the values come back unchanged and in order |
| `OrderedDicts.Count` | src/peplum/app/data/peps.py:106 | `Counter(xs)` holds exactly the elements of `xs`, each with its number of occurrences |
| `OrderedDicts.CountTotal` | src/peplum/app/data/peps.py:106 | the counts of a `Counter` add up to the number of elements counted |
| `OrderedDicts.CountFirstAppearance` | src/peplum/app/data/peps.py:106 | a `Counter`'s keys come in the order of first appearance |
| `OrderedDicts.Tally` | src/peplum/app/data/peps.py:104-107 | `Counter(xs).items()`: one pair per distinct element, its count at least 1 and equal to its occurrences, counts summing to `len(xs)` |
| `PepCounts.ValueGt` | src/peplum/app/data/peps.py:31-34 | `>` on raw values is defined for two strings or two integers and raises for any other pairing |
| `PepCounts.IntKeyOrder` | src/peplum/app/data/peps.py:21-39 | on integer keys the `total_ordering` comparisons built on `__gt__` are exactly numeric order |
| `PepCounts.StrKeyOrder` | src/peplum/app/data/peps.py:21-39 | on string keys the `total_ordering` comparisons built on `__gt__` are exactly string order |
| `PepCounts.StatusOrder` | src/peplum/app/data/peps.py:21-39 | every comparison of two status counts is the string order of their statuses, whatever the counts |
| `PepCounts.StatusTrichotomy` | src/peplum/app/data/peps.py:31-39 | exactly one of `<`, `==`, `>` holds for two status counts with string statuses |
| `PepCounts.StatusLtConverseTransitive` | src/peplum/app/data/peps.py:31-39 | `a < b` is `b > a`, and `<` is transitive |
| `PepCounts.StatusUnorderable` | src/peplum/app/data/peps.py:31-34 | a `None` status on either side, or a string against an integer in either order, makes every ordering comparison raise |
| `PepCounts.TypeOrder` | src/peplum/app/data/peps.py:43-61 | every comparison of two type counts is the string order of their types, whatever the counts |
| `PepCounts.TypeTrichotomy` | src/peplum/app/data/peps.py:53-61 | exactly one of `<`, `==`, `>` holds for two type counts with string types |
| `PepCounts.VersionOrder` | src/peplum/app/data/peps.py:65-83 | every comparison of two version counts is the string order of their versions, and exactly one of `<`, `==`, `>` holds |
| `PepCounts.SortedKeysAgree` | src/peplum/app/data/peps.py:31-39 | two sorted lists of distinct string keys that hold the same keys are the same list |
| `PepCounts.SortedStatusesEqual` | tests/unit/test_peps.py:202-206 | `sorted(xs) == sorted(ys)` on status counts with distinct string statuses holds when both hold the same statuses; the counts are never compared |
| `PepCounts.SortedTypesEqual` | tests/unit/test_peps.py:210-214 | the same for type counts |
| `PepCollection.Create` | src/peplum/app/data/peps.py:90-98 | no argument gives an empty collection; otherwise the keys are exactly the records' numbers and each record is stored under its own number |
| `PepCollection.Len` | src/peplum/app/data/peps.py:140-142 | `len` is the number of distinct numbers held |
| `PepCollection.Iter` | src/peplum/app/data/peps.py:136-138 | iteration yields each held record exactly once (`len` of them, distinct numbers, every held record present) |
| `PepCollection.Contains` | src/peplum/app/data/peps.py:132-134 | `x in peps` exactly when some record yielded by iteration has the number of `x` (its own number if a record, itself if an integer) |
| `PepCollection.LenIsDistinctNumbers` | src/peplum/app/data/peps.py:96-98 | the length of a built collection is the number of distinct numbers among the records |
| `PepCollection.EmptyHasNoPeps` | src/peplum/app/data/peps.py:90-98 | an empty construction has length 0 and contains nothing |
| `PepCollection.DistinctNumbers` | src/peplum/app/data/peps.py:96-98 | with no repeated number, iteration gives the records back in order and the length is their number |
| `PepCollection.LastDuplicateWins` | src/peplum/app/data/peps.py:96-98 | for a repeated number, the last record with it is the one held and yielded |
| `PepCollection.IterYieldsLast` | src/peplum/app/data/peps.py:136-138 | each record iteration yields is the last record with its number |
| `PepCollection.IterFirstAppearance` | src/peplum/app/data/peps.py:136-138 | iteration yields the numbers in the order in which each first appeared |
| `PepCollection.ContainsByNumber` | src/peplum/app/data/peps.py:132-134 | a record and its bare number answer `in` alike, and that is whether some input record had the number |
| `PepCollection.Statuses` | src/peplum/app/data/peps.py:101-107 | one count per distinct status present, each equal to the number of records with that status (at least 1), summing to `len` |
| `PepCollection.Types` | src/peplum/app/data/peps.py:109-115 | one count per distinct type present, each equal to the number of records with that type (at least 1), summing to `len` |
| `OrderedDicts.KeysOfFirstAppearance` | src/peplum/app/data/peps.py:106 | `Counter(key(v) for v in vs)` orders its keys by the position at which each key first appears among `vs` |
| `PepCollection.StatusesOrder` | src/peplum/app/data/peps.py:106 | the statuses are the `Counter`'s keys, and a status listed before another first appears earlier among the records iterated |
| `PepCollection.TypesOrder` | src/peplum/app/data/peps.py:114 | the types are the `Counter`'s keys, and a type listed before another first appears earlier among the records iterated |
| `PepCollection.VersionsOrder` | src/peplum/app/data/peps.py:117-130 | the versions are the keys of the `Counter` over the concatenated versions, and a version listed before another first appears earlier in that concatenation |
| `PepCollection.PythonVersions` | src/peplum/app/data/peps.py:117-130 | raises exactly on an empty collection; otherwise one count per version present (`""` for a record with none), each its number of occurrences, summing to the sum over records of max(1, number of versions) |
| `PepCollection.BlankCountsVersionless` | src/peplum/app/data/peps.py:128 | when no record lists `""` itself, `""` occurs once per record with no version |
| `PepCollection.BlankBucket` | src/peplum/app/data/peps.py:121-128 | the `""` count equals the number of version-less records, when no record lists `""` itself |
| `PepCollection.BlankPresent` | src/peplum/app/data/peps.py:128 | the `""` bucket is present exactly when some record has no version or lists `""` |
| `PepCollection.DistinctStatusesOnce` | src/peplum/app/data/peps.py:101-107 | with no two records sharing a status, there is one count per record and each is 1 |
| `PepCollection.ThreeTypesThrice` | src/peplum/app/data/peps.py:109-115 | three distinct types, each on three records, give three counts of 3 |
| `PepCollection.SampleLength` | tests/unit/test_peps.py:196-198 | the nine sample records are all held, in their own order |
| `PepCollection.SampleStatusCounts` | tests/unit/test_peps.py:202-206 | the samples give nine status counts, each of 1 |
| `PepCollection.SampleStatusTest` | tests/unit/test_peps.py:202-206 | the sorted status counts equal the sorted expected counts |
| `PepCollection.SampleTypeCounts` | tests/unit/test_peps.py:210-214 | the samples give three type counts, each of 3 |
| `PepCollection.SampleTypeTest` | tests/unit/test_peps.py:210-214 | the test's list equality holds against counts of 2 although every type is counted 3 times, because equality compares types only |

## Left out

- The locale save, set and restore in `parse_date` (src/peplum/peps/pep.py:54-59). The model reads the month from a fixed English table, which is what the locale change is there to achieve. Process-wide locale state and its concurrency are not modelled.
- Non-ASCII text. `\d` and `\w` in the patterns, the digits `strptime` and `int()` accept, and case-insensitive month matching are ASCII only in the model. Python also accepts Unicode digits and Unicode case folding.
- Python's general regular-expression engine. The three patterns and `,(?! +Jr)` are written out as predicates.
- `int()` of values other than `str` and `int` (floats, booleans), and JSON values other than `None`, strings and integers (floats, lists, objects) in the raw mapping.
- Comparing a count record with an object of another class, which raises `NotImplementedError` in Python. The Dafny types rule such comparisons out.
- `sorted` itself. The test lemmas take any sequence that is a reordering of the counts with no later element less than an earlier one, which is what `sorted` returns.
- The filter classes (`WithStatus`, `WithType`, `WithPythonVersion`, `WithAuthor`, `Containing`) and `&` on `PEPs`. They are not defined in src/peplum/app/data/peps.py, so they are not part of this model.
- The Textual user interface, commands, messages and providers, file and network I/O, configuration, the PEP-source cache and the worker threads.
- `date_display` and `humanize.naturaltime` (src/peplum/app/widgets/pep_details.py:26-35), which depend on the current time and a foreign library.
- `Integers.ParseInt`: the digit limit is fixed at CPython's default of 4300. Python lets a program or the environment change it (`sys.set_int_max_str_digits`, `PYTHONINTMAXSTRDIGITS`), and the model does not.
- `Integers.IntToString`: `str(n)` also raises above the digit limit in Python; the model's `IntToString` always succeeds, and the round-trip lemmas ask for `n` within the limit.
- `PostHistories.FromValue`: its own contract states only the `None` case and that a parsed entry has a date or a link. Each branch is stated by the `FromValueDateOnly`, `FromValueUrlOnly`, `FromValueDateAndUrl` and `FromValueUnparsable` lemmas.
