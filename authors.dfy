/**
 * `PEP._authors`: the author string split by the regular expression
 * `,(?! +Jr)` (a comma NOT followed by one or more spaces and `Jr`), each
 * piece then stripped.
 */
module Authors {
  import opened Text

  /** The lookahead ` +Jr` matches at the start of `t`: one or more spaces, then `Jr`. */
  predicate JrFollows(t: string)
    decreases |t|
  {
    |t| >= 3 && t[0] == ' ' && (t[1..3] == "Jr" || JrFollows(t[1..]))
  }

  /** `,(?! +Jr)` matches at the start of `t`. */
  predicate SplitsAt(t: string) {
    |t| > 0 && t[0] == ',' && !JrFollows(t[1..])
  }

  /** The number of places where `,(?! +Jr)` matches in `s`. */
  function SeparatorCount(s: string): nat {
    if s == [] then 0 else (if SplitsAt(s) then 1 else 0) + SeparatorCount(s[1..])
  }

  /** Text with no separator of its own: each comma in it is followed, inside it, by ` +Jr`. */
  predicate IsPiece(p: string) {
    forall j :: 0 <= j < |p| && p[j] == ',' ==> JrFollows(p[j + 1..])
  }

  /** The lookahead only reads spaces, `J` and `r`, so it cannot see past a comma. */
  lemma {:induction false} JrBeforeComma(x: string, y: string)
    requires JrFollows(x + [','] + y)
    ensures JrFollows(x)
  {
    var t := x + [','] + y;
    assert t[0] == ' ';
    assert x != [];
    if t[1..3] == "Jr" {
      assert t[1] == 'J' && t[2] == 'r';
      assert |x| >= 3;
      assert x[1..3] == t[1..3];
    } else {
      assert t[1..] == x[1..] + [','] + y;
      JrBeforeComma(x[1..], y);
      assert x[1..3] == t[1..3];
    }
  }

  /** What follows a lookahead match does not undo it. */
  lemma {:induction false} JrExtends(x: string, y: string)
    requires JrFollows(x)
    ensures JrFollows(x + y)
  {
    var t := x + y;
    assert t[1..3] == x[1..3];
    if x[1..3] != "Jr" {
      assert t[1..] == x[1..] + y;
      JrExtends(x[1..], y);
    }
  }

  /**
   * `_AUTHOR_SPLIT.split(s)`: the pieces between separators, in order; one
   * more piece than separators, so `""` gives `[""]`.
   */
  function SplitAuthors(s: string): (r: seq<string>)
    ensures |r| == SeparatorCount(s) + 1
    ensures Join(r, ',') == s
    ensures forall k :: 0 <= k < |r| ==> IsPiece(r[k])
    ensures forall k :: 1 <= k < |r| ==> !JrFollows(r[k])
  {
    if s == [] then [[]]
    else
      var rest := SplitAuthors(s[1..]);
      if SplitsAt(s) then
        SplitAtFirst(s, rest);
        [[]] + rest
      else
        ExtendFirst(s, rest);
        [[s[0]] + rest[0]] + rest[1..]
  }

  /** `r` has the four properties `SplitAuthors(s)` promises. */
  ghost predicate IsSplit(s: string, r: seq<string>) {
    && |r| == SeparatorCount(s) + 1
    && Join(r, ',') == s
    && (forall k :: 0 <= k < |r| ==> IsPiece(r[k]))
    && (forall k :: 1 <= k < |r| ==> !JrFollows(r[k]))
  }

  /** The text after the first piece of a split: empty, or a comma and the rest joined. */
  lemma SplitTail(s: string, rest: seq<string>)
    requires IsSplit(s, rest)
    ensures s == rest[0] + (if |rest| == 1 then [] else [','] + Join(rest[1..], ','))
  {
  }

  /** A separator at the front starts a new, empty first piece. */
  lemma SplitAtFirst(s: string, rest: seq<string>)
    requires s != [] && SplitsAt(s)
    requires IsSplit(s[1..], rest)
    ensures IsSplit(s, [[]] + rest)
  {
    var tail := if |rest| == 1 then [] else [','] + Join(rest[1..], ',');
    SplitTail(s[1..], rest);
    assert !JrFollows(rest[0]) by {
      if JrFollows(rest[0]) { JrExtends(rest[0], tail); }
    }
    var r := [[]] + rest;
    assert r[1..] == rest;
    assert Join(r, ',') == [] + [','] + s[1..];
    assert [s[0]] + s[1..] == s;
  }

  /** Any other first character joins the first piece. */
  lemma ExtendFirst(s: string, rest: seq<string>)
    requires s != [] && !SplitsAt(s)
    requires IsSplit(s[1..], rest)
    ensures IsSplit(s, [[s[0]] + rest[0]] + rest[1..])
  {
    var r := [[s[0]] + rest[0]] + rest[1..];
    assert r[1..] == rest[1..];
    ExtendedPiece(s, rest);
    JoinExtendFirst(s[0], rest, ',');
    assert [s[0]] + s[1..] == s;
  }

  lemma ExtendedPiece(s: string, rest: seq<string>)
    requires s != [] && !SplitsAt(s)
    requires IsSplit(s[1..], rest)
    ensures IsPiece([s[0]] + rest[0])
  {
    var first := [s[0]] + rest[0];
    if s[0] == ',' {
      SplitTail(s[1..], rest);
      assert JrFollows(rest[0]) by {
        if |rest| > 1 {
          JrBeforeComma(rest[0], Join(rest[1..], ','));
        }
      }
    }
    forall j | 0 < j < |first| ensures first[j + 1..] == rest[0][j..] { }
  }

  /** A piece on its own is not split. */
  lemma {:induction false} SplitPiece(a: string)
    requires IsPiece(a)
    ensures SplitAuthors(a) == [a]
  {
    if a != [] {
      assert IsPiece(a[1..]) by {
        forall j | 0 <= j < |a[1..]| && a[1..][j] == ',' ensures JrFollows(a[1..][j + 1..]) {
          assert a[j + 2..] == a[1..][j + 1..];
        }
      }
      SplitPiece(a[1..]);
      if a[0] == ',' {
        assert JrFollows(a[1..]);
      }
      assert [a[0]] + a[1..] == a;
    }
  }

  lemma {:induction false} SplitPrefix(a: string, b: string)
    requires IsPiece(a) && !JrFollows(b)
    ensures SplitAuthors(a + [','] + b) == [a] + SplitAuthors(b)
  {
    var s := a + [','] + b;
    if a == [] {
      assert s[1..] == b;
    } else {
      assert s[1..] == a[1..] + [','] + b;
      assert IsPiece(a[1..]) by {
        forall j | 0 <= j < |a[1..]| && a[1..][j] == ',' ensures JrFollows(a[1..][j + 1..]) {
          assert a[j + 2..] == a[1..][j + 1..];
        }
      }
      if a[0] == ',' {
        JrExtends(a[1..], [','] + b);
        assert a[1..] + ([','] + b) == s[1..];
      }
      SplitPrefix(a[1..], b);
      assert [a[0]] + a[1..] == a;
    }
  }

  /**
   * Joining pieces with commas and splitting again gives the pieces back,
   * provided no piece after the first starts with ` +Jr` (that comma would be
   * kept).
   */
  lemma {:induction false} SplitJoin(parts: seq<string>)
    requires |parts| >= 1
    requires forall k :: 0 <= k < |parts| ==> IsPiece(parts[k])
    requires forall k :: 1 <= k < |parts| ==> !JrFollows(parts[k])
    ensures SplitAuthors(Join(parts, ',')) == parts
  {
    if |parts| == 1 {
      SplitPiece(parts[0]);
    } else {
      SplitJoin(parts[1..]);
      var rest := Join(parts[1..], ',');
      assert !JrFollows(rest) by {
        if |parts| == 2 {
        } else {
          assert rest == parts[1] + [','] + Join(parts[2..], ',');
          if JrFollows(rest) { JrBeforeComma(parts[1], Join(parts[2..], ',')); }
        }
      }
      SplitPrefix(parts[0], rest);
      assert [parts[0]] + parts[1..] == parts;
    }
  }

  /** `PEP._authors`: each piece of the split, stripped. */
  function AuthorsOf(s: string): (r: seq<string>)
    ensures |r| == SeparatorCount(s) + 1
    ensures forall i :: 0 <= i < |r| ==> r[i] == Strip(SplitAuthors(s)[i])
  {
    var pieces := SplitAuthors(s);
    seq(|pieces|, i requires 0 <= i < |pieces| => Strip(pieces[i]))
  }

  lemma NoCommaIsPiece(p: string)
    requires ',' !in p
    ensures IsPiece(p)
  {
  }

  /** The empty string is one empty author. */
  lemma EmptyIsOneEmptyAuthor()
    ensures AuthorsOf("") == [""]
  {
  }

  /** `", ".join(names)`. */
  function JoinNames(names: seq<string>): string {
    if |names| == 0 then "" else if |names| == 1 then names[0] else names[0] + ", " + JoinNames(names[1..])
  }

  /** `n` begins with `Jr`. */
  predicate StartsWithJr(n: string) {
    |n| >= 2 && n[0] == 'J' && n[1] == 'r'
  }

  /** A name that `", ".join` can carry and `_authors` recovers. */
  predicate PlainName(n: string) {
    IsStripped(n) && IsPiece(n)
  }

  /** Each name after the first, with the space that `", "` puts before it. */
  function SpacedAll(ns: seq<string>): (r: seq<string>)
    ensures |r| == |ns|
    ensures forall i :: 0 <= i < |ns| ==> r[i] == " " + ns[i]
  {
    seq(|ns|, i requires 0 <= i < |ns| => " " + ns[i])
  }

  lemma {:induction false} JoinSpacedAll(ns: seq<string>)
    requires |ns| >= 1
    ensures Join(SpacedAll(ns), ',') == " " + JoinNames(ns)
  {
    if |ns| > 1 {
      JoinSpacedAll(ns[1..]);
      assert SpacedAll(ns)[1..] == SpacedAll(ns[1..]);
    }
  }

  /** `", ".join(names)` is the comma join of the first name and the later names each behind a space. */
  lemma JoinSpaced(names: seq<string>)
    requires |names| >= 1
    ensures Join([names[0]] + SpacedAll(names[1..]), ',') == JoinNames(names)
  {
    var parts := [names[0]] + SpacedAll(names[1..]);
    if |names| > 1 {
      var tail := SpacedAll(names[1..]);
      assert parts[1..] == tail;
      JoinSpacedAll(names[1..]);
      CommaThenSpace(names[0], JoinNames(names[1..]));
    } else {
      assert parts == [names[0]];
    }
  }

  lemma CommaThenSpace(a: string, rest: string)
    ensures a + [','] + (" " + rest) == a + ", " + rest
  {
    assert [','] + " " == ", ";
  }

  /** A space in front of a piece keeps it a piece. */
  lemma SpacedPiece(n: string)
    requires IsPiece(n)
    ensures IsPiece(" " + n)
  {
    var t := " " + n;
    forall j | 0 <= j < |t| && t[j] == ',' ensures JrFollows(t[j + 1..]) {
      assert t[j + 1..] == n[j..];
    }
  }

  /** After `", "` the lookahead sees a single space, so only a name starting with `Jr` keeps the comma. */
  lemma SpacedNotJr(n: string)
    requires IsStripped(n) && !StartsWithJr(n)
    ensures !JrFollows(" " + n)
  {
    var t := " " + n;
    if |t| >= 3 {
      assert t[1..] == n;
      assert t[1..3] == n[..2];
    }
  }

  /** The pieces `_AUTHOR_SPLIT` cuts `", ".join(names)` into: each name after the first keeps its space. */
  lemma {:induction false} SplitJoinNames(names: seq<string>)
    requires |names| >= 1
    requires forall k :: 0 <= k < |names| ==> IsPiece(names[k])
    requires forall k :: 1 <= k < |names| ==> IsStripped(names[k]) && !StartsWithJr(names[k])
    ensures SplitAuthors(JoinNames(names)) == [names[0]] + SpacedAll(names[1..])
  {
    var parts := [names[0]] + SpacedAll(names[1..]);
    JoinSpaced(names);
    assert forall k :: 1 <= k < |parts| ==> parts[k] == " " + names[k];
    forall k | 1 <= k < |parts| ensures IsPiece(parts[k]) && !JrFollows(parts[k]) {
      SpacedPiece(names[k]);
      SpacedNotJr(names[k]);
    }
    SplitJoin(parts);
  }

  lemma StripSpaced(n: string)
    requires IsStripped(n)
    ensures Strip(" " + n) == n
  {
    var sp := [' '];
    assert AllSpace(sp) by { assert IsSpace(sp[0]); }
    assert sp + n + [] == " " + n;
    StripPadded(sp, n, []);
  }

  lemma StripStripped(n: string)
    requires IsStripped(n)
    ensures Strip(n) == n
  {
    StripPadded([], n, []);
    assert [] + n + [] == n;
  }

  /**
   * `_authors(", ".join(names))` gives `names` back for stripped names, when
   * no name after the first begins with `Jr`.
   */
  lemma AuthorsOfJoinNames(names: seq<string>)
    requires |names| >= 1
    requires forall k :: 0 <= k < |names| ==> PlainName(names[k])
    requires forall k :: 1 <= k < |names| ==> !StartsWithJr(names[k])
    ensures AuthorsOf(JoinNames(names)) == names
  {
    SplitJoinNames(names);
    var pieces := SplitAuthors(JoinNames(names));
    var r := AuthorsOf(JoinNames(names));
    assert |r| == |names|;
    forall k | 0 <= k < |names| ensures r[k] == names[k] {
      if k == 0 {
        StripStripped(names[0]);
      } else {
        StripSpaced(names[k]);
      }
    }
  }

  /** A comma directly before a non-space always splits. */
  lemma CommaWithoutSpace(a: string, b: string)
    requires PlainName(a) && PlainName(b)
    requires b == [] || b[0] != ' '
    ensures AuthorsOf(a + [','] + b) == [a, b]
  {
    var s := a + [','] + b;
    SplitTwo(a, b);
    assert IsStripped(SplitAuthors(s)[0]) && IsStripped(SplitAuthors(s)[1]);
    AuthorsOfStrippedPieces(s);
  }

  /** When every piece is already stripped, the authors are the pieces themselves. */
  lemma AuthorsOfStrippedPieces(s: string)
    requires forall k :: 0 <= k < |SplitAuthors(s)| ==> IsStripped(SplitAuthors(s)[k])
    ensures AuthorsOf(s) == SplitAuthors(s)
  {
    var pieces := SplitAuthors(s);
    var r := AuthorsOf(s);
    forall k | 0 <= k < |pieces| ensures r[k] == pieces[k] {
      StripStripped(pieces[k]);
    }
  }

  lemma SplitTwo(a: string, b: string)
    requires IsPiece(a) && IsPiece(b)
    requires b == [] || b[0] != ' '
    ensures SplitAuthors(a + [','] + b) == [a, b]
  {
    assert !JrFollows(b);
    SplitPrefix(a, b);
    SplitPiece(b);
    assert [a] + [b] == [a, b];
  }

  /** The four authors of the first sample record come out as four names. */
  lemma FourAuthors(s: string)
    requires s == "Barry Warsaw" + ", " + "Jeremy Hylton" + ", " + "David Goodger" + ", " + "Alyssa Coghlan"
    ensures AuthorsOf(s) == ["Barry Warsaw", "Jeremy Hylton", "David Goodger", "Alyssa Coghlan"]
  {
    var names := ["Barry Warsaw", "Jeremy Hylton", "David Goodger", "Alyssa Coghlan"];
    assert names[1..][1..][1..] == ["Alyssa Coghlan"];
    assert names[1..][1..] == ["David Goodger", "Alyssa Coghlan"];
    assert s == JoinNames(names);
    forall k | 0 <= k < 4 ensures PlainName(names[k]) { NoCommaIsPiece(names[k]); }
    AuthorsOfJoinNames(names);
  }

  /** `", Jr"` after a comma-free name leaves it one piece. */
  lemma JuniorSuffix(a: string)
    requires ',' !in a
    ensures IsPiece(a + ", Jr")
  {
    var p := a + ", Jr";
    forall j | 0 <= j < |p| && p[j] == ',' ensures JrFollows(p[j + 1..]) {
      assert j == |a|;
      assert p[j + 1..] == " Jr";
    }
  }

  /** A comma followed by a space and `Jr` stays inside the name. */
  lemma JuniorKept(s: string)
    requires s == "Smith" + ", Jr" + ", " + "Jones"
    ensures AuthorsOf(s) == ["Smith" + ", Jr", "Jones"]
  {
    var names := ["Smith" + ", Jr", "Jones"];
    assert s == JoinNames(names);
    JuniorSuffix("Smith");
    NoCommaIsPiece("Jones");
    AuthorsOfJoinNames(names);
  }

  /** With no space before `Jr` the comma does split. */
  lemma JuniorWithoutSpaceSplits(s: string)
    requires s == "Smith" + "," + "Jr"
    ensures AuthorsOf(s) == ["Smith", "Jr"]
  {
    NoCommaIsPiece("Smith");
    NoCommaIsPiece("Jr");
    CommaWithoutSpace("Smith", "Jr");
  }
}
