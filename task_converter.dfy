/**
 * The daily-report parser of converters/task_converter.py: a line-by-line
 * state machine that carries the current date and the current PIC (the
 * person in charge) and emits one six-field task record per task line.
 *
 * The three regular expressions of the parser are written as scanners.
 * Their character classes (digits, whitespace, '-', '.', letters) never
 * overlap, so a greedy scan accepts exactly what the backtracking regex
 * accepts; the lines come from splitting on '\n', so `.` and `$` never
 * meet a newline.
 */
module TaskConverter {
  import opened Wrappers
  import opened Strings
  import Months

  /** One row of the table the parser returns, columns in source order. */
  datatype TaskRecord = TaskRecord(
    backlog: string,
    canonicalBacklog: string,
    pic: string,
    status: string,
    startDate: string,
    endDate: string)

  /** The state carried from line to line; `None` is Python's `None`. */
  datatype ParserState = ParserState(date: Option<string>, pic: Option<string>)

  const Initial := ParserState(None, None)

  /** Python truthiness of an optional string. */
  predicate Truthy(o: Option<string>) {
    o.Some? && o.value != []
  }

  // ---------------------------------------------------------------------
  // create_canonical_text
  // ---------------------------------------------------------------------

  /** The comparison key of a description: lower-cased, then stripped; "" for a non-string. */
  function CanonicalText(v: Value): (r: string)
    ensures IsStripped(r)
    ensures v.NonStr? ==> r == []
    ensures v.Str? ==> |r| <= |v.s|
  {
    match v
    case NonStr => []
    case Str(s) => Strip(Lower(s))
  }

  lemma {:induction false} TrimStartLower(s: string)
    ensures TrimStart(Lower(s)) == Lower(TrimStart(s))
  {
    LowerSpec(s);
    if s != [] {
      assert Lower(s)[0] == LowerChar(s[0]);
      if IsSpace(s[0]) {
        assert Lower(s)[1..] == Lower(s[1..]);
        TrimStartLower(s[1..]);
      }
    }
  }

  lemma {:induction false} TrimEndLower(s: string)
    ensures TrimEnd(Lower(s)) == Lower(TrimEnd(s))
  {
    LowerSpec(s);
    if s != [] {
      assert Lower(s)[|s| - 1] == LowerChar(s[|s| - 1]);
      if IsSpace(s[|s| - 1]) {
        assert Lower(s)[..|s| - 1] == Lower(s[..|s| - 1]);
        TrimEndLower(s[..|s| - 1]);
      }
    }
  }

  /** Lower-casing and stripping commute, since case mapping never touches whitespace. */
  lemma LowerStripCommute(s: string)
    ensures Strip(Lower(s)) == Lower(Strip(s))
  {
    TrimStartLower(s);
    TrimEndLower(TrimStart(s));
  }

  /** The key has no upper-case letter, and stripping first gives the same key. */
  lemma CanonicalTextSpec(s: string)
    ensures IsLowerCase(CanonicalText(Str(s)))
    ensures CanonicalText(Str(s)) == Lower(Strip(s))
  {
    LowerStripCommute(s);
    LowerSpec(Strip(s));
  }

  /** Canonicalising a canonical text changes nothing. */
  lemma CanonicalTextIdempotent(v: Value)
    ensures CanonicalText(Str(CanonicalText(v))) == CanonicalText(v)
  {
    var r := CanonicalText(v);
    if v.Str? {
      CanonicalTextSpec(v.s);
    }
    LowerSpec(r);
    StrippedIsFixpoint(r);
  }

  /** The key ignores letter case and surrounding whitespace. */
  lemma CanonicalTextInsensitive(s1: string, s2: string, w1: string, w2: string)
    requires Lower(s1) == Lower(s2)
    requires AllSpace(w1) && AllSpace(w2)
    ensures CanonicalText(Str(w1 + s1 + w2)) == CanonicalText(Str(s2))
  {
    LowerAppend(w1, s1);
    LowerAppend(w1 + s1, w2);
    LowerSpec(w1);
    LowerSpec(w2);
    StripIgnoresPadding(Lower(w1), Lower(s2), Lower(w2));
  }

  // ---------------------------------------------------------------------
  // parse_date_to_string
  // ---------------------------------------------------------------------

  /** The month as written in the date: looked up in the table (else kept), then capitalised. */
  function MonthName(lowered: string): string {
    Capitalize(Months.Lookup(lowered).GetOr(lowered))
  }

  /** Each Indonesian month name becomes its English name, already capitalised. */
  lemma MonthNameTranslates(i: nat)
    requires i < |Months.Table|
    ensures MonthName(Months.Table[i].0) == Months.Table[i].1
  {
    Months.TableNamesDistinct();
    Months.LookupDistinct(Months.Table, i);
    var en := Months.Table[i].1;
    Months.EnglishNamesTitled(i);
    assert forall c :: 0 <= c < |en[1..]| ==> en[1..][c] == en[c + 1];
    CapitalizeTitle(en);
  }

  /** Any other name is kept and only capitalised. */
  lemma MonthNameKept(lowered: string)
    requires forall i :: 0 <= i < |Months.Table| ==> Months.Table[i].0 != lowered
    ensures MonthName(lowered) == Capitalize(lowered)
  {
  }

  /**
   * Split on '-', strip the pieces, and format "<day> <Month> <year>";
   * fewer than three pieces is the IndexError that yields `None`.
   */
  function ParseDateToString(s: string): (r: Option<string>)
    ensures r.None? <==> Count(s, '-') < 2
    ensures r.Some? ==> r.value != []
  {
    var parts := Split(s, '-');
    if |parts| < 3 then None
    else Some(Strip(parts[0]) + " " + MonthName(Lower(Strip(parts[1]))) + " " + Strip(parts[2]))
  }

  // ---------------------------------------------------------------------
  // The three line patterns
  // ---------------------------------------------------------------------

  /** The character classes of the three patterns: digits, whitespace and ASCII letters. */
  datatype CharClass = Digits | Spaces | Letters

  predicate In(k: CharClass, c: char) {
    match k
    case Digits => IsDigit(c)
    case Spaces => IsSpace(c)
    case Letters => IsLetter(c)
  }

  /** Every character of `s` is in class `k`. */
  predicate AllIn(k: CharClass, s: string) {
    forall i :: 0 <= i < |s| ==> In(k, s[i])
  }

  /** Length of the longest prefix of `s` in class `k`: what a greedy repetition of the class consumes. */
  function Leading(s: string, k: CharClass): (n: nat)
    ensures n <= |s|
    ensures AllIn(k, s[..n])
    ensures n < |s| ==> !In(k, s[n])
  {
    if s != [] && In(k, s[0]) then
      var n := 1 + Leading(s[1..], k);
      assert forall i :: 1 <= i < n ==> s[..n][i] == s[1..][..n - 1][i - 1];
      n
    else 0
  }

  /** Every character of `s`, if any, is in class `k`. */
  function IsRun(s: string, k: CharClass): (b: bool)
    ensures b <==> AllIn(k, s)
  {
    var n := Leading(s, k);
    assert s[..n] == s || s[n] == s[n];
    n == |s|
  }

  /** A greedy scan stops exactly where the class ends, and splits the text there. */
  lemma {:induction false} LeadingStops(a: string, b: string, k: CharClass)
    requires AllIn(k, a)
    requires b == [] || !In(k, b[0])
    ensures Leading(a + b, k) == |a|
    ensures (a + b)[..|a|] == a && (a + b)[|a|..] == b
  {
    if a != [] {
      assert (a + b)[1..] == a[1..] + b;
      LeadingStops(a[1..], b, k);
    } else {
      assert a + b == b;
    }
  }

  /** What starts a separator is whitespace or the hyphen: never a digit or a letter. */
  lemma SepStart(w: string, rest: string)
    requires AllIn(Spaces, w)
    ensures var x := w + ("-" + rest); !In(Digits, x[0]) && !In(Letters, x[0])
  {
    if w != [] {
      assert In(Spaces, w[0]);
    }
  }

  /** No class contains the hyphen. */
  lemma NoHyphen(s: string, k: CharClass)
    requires AllIn(k, s)
    ensures '-' !in s
  {
    forall i | 0 <= i < |s|
      ensures s[i] != '-'
    {
      assert In(k, s[i]);
    }
  }

  /** A hyphen with optional whitespace on each side at the start of `s`: the whitespace before and after it, and what follows. */
  datatype Sep = Sep(before: string, after: string, rest: string)

  function MatchSep(s: string): (r: Option<Sep>)
  {
    var a := Leading(s, Spaces);
    if a == |s| || s[a] != '-' then None
    else
      var b := Leading(s[a + 1..], Spaces);
      Some(Sep(s[..a], s[a + 1..][..b], s[a + 1 + b..]))
  }

  /** A matched separator is whitespace, a hyphen and whitespace, and gives back the text it came from. */
  lemma MatchSepSound(s: string)
    requires MatchSep(s).Some?
    ensures var r := MatchSep(s).value;
            AllIn(Spaces, r.before) && AllIn(Spaces, r.after)
            && s == r.before + ("-" + (r.after + r.rest))
            && (r.rest == [] || !IsSpace(r.rest[0]))
  {
    var a := Leading(s, Spaces);
    var u := s[a + 1..];
    var b := Leading(u, Spaces);
    var r := MatchSep(s).value;
    assert r == Sep(s[..a], u[..b], s[a + 1 + b..]);
    assert AllIn(Spaces, r.before);
    assert AllIn(Spaces, r.after);
    assert r.rest == u[b..];
    if b < |u| {
      assert !In(Spaces, u[b]);
    }
    MatchSepText(s, a, b);
  }

  lemma MatchSepText(s: string, a: nat, b: nat)
    requires a < |s| && s[a] == '-' && a + 1 + b <= |s|
    ensures s == s[..a] + ("-" + (s[a + 1..][..b] + s[a + 1 + b..]))
  {
    var u := s[a + 1..];
    assert s[a + 1 + b..] == u[b..];
    SplitAt(u, b);
    assert s[a..] == "-" + u;
    SplitAt(s, a);
  }

  /** Any whitespace-hyphen-whitespace run is recognised with its own pieces. */
  lemma MatchSepComplete(before: string, after: string, rest: string)
    requires AllIn(Spaces, before) && AllIn(Spaces, after)
    requires rest == [] || !IsSpace(rest[0])
    ensures MatchSep(before + ("-" + (after + rest))) == Some(Sep(before, after, rest))
  {
    var s := before + ("-" + (after + rest));
    var a := |before|;
    LeadingStops(before, "-" + (after + rest), Spaces);
    assert s[a + 1..] == after + rest;
    LeadingStops(after, rest, Spaces);
    assert s[a + 1 + |after|..] == rest;
  }

  /** The pieces of a date header `d - month - yyyy`, with the whitespace between them. */
  datatype DateHeader = DateHeader(
    day: string, w1: string, w2: string, month: string, w3: string, w4: string, year: string)
  {
    function Text(): string {
      day + (w1 + ("-" + (w2 + (month + (w3 + ("-" + (w4 + year)))))))
    }

    predicate Valid() {
      1 <= |day| <= 2 && AllIn(Digits, day) && AllIn(Spaces, w1) && AllIn(Spaces, w2)
      && month != [] && AllIn(Letters, month) && AllIn(Spaces, w3) && AllIn(Spaces, w4)
      && |year| == 4 && AllIn(Digits, year)
    }
  }

  /** A date header: one or two digits, a hyphen, letters, a hyphen and four digits, whitespace allowed around each hyphen. */
  function MatchDateHeader(t: string): (r: Option<DateHeader>)
  {
    var d := Leading(t, Digits);
    var sep1 := MatchSep(t[d..]);
    if !(1 <= d <= 2) || sep1.None? then None
    else
      var s1 := sep1.value;
      var m := Leading(s1.rest, Letters);
      var sep2 := MatchSep(s1.rest[m..]);
      if m == 0 || sep2.None? then None
      else
        var s2 := sep2.value;
        if |s2.rest| == 4 && IsRun(s2.rest, Digits) then
          Some(DateHeader(t[..d], s1.before, s1.after, s1.rest[..m], s2.before, s2.after, s2.rest))
        else None
  }

  /** A matched date header is well formed and spells out the text it was matched in. */
  lemma MatchDateHeaderSound(t: string)
    requires MatchDateHeader(t).Some?
    ensures MatchDateHeader(t).value.Valid() && MatchDateHeader(t).value.Text() == t
  {
    var d := Leading(t, Digits);
    MatchSepSound(t[d..]);
    var s1 := MatchSep(t[d..]).value;
    var m := Leading(s1.rest, Letters);
    MatchSepSound(s1.rest[m..]);
    var s2 := MatchSep(s1.rest[m..]).value;
    SplitAt(t, d);
    SplitAt(s1.rest, m);
  }

  /** The pieces of a PIC header `<number>.<rest>`. */
  datatype PicHeader = PicHeader(number: string, rest: string) {
    function Text(): string {
      number + ("." + rest)
    }

    predicate Valid() {
      number != [] && AllIn(Digits, number) && rest != []
    }

    /** The captured rest, stripped: the same whether the optional whitespace or the rest takes a leading blank. */
    function Name(): string {
      Strip(rest)
    }
  }

  /** A PIC header: digits, a dot, optional whitespace and at least one more character. */
  function MatchPicHeader(t: string): (r: Option<PicHeader>)
  {
    var d := Leading(t, Digits);
    if d == 0 || d + 1 >= |t| || t[d] != '.' then None
    else Some(PicHeader(t[..d], t[d + 1..]))
  }

  /** A matched PIC header is well formed and spells out the text it was matched in. */
  lemma MatchPicHeaderSound(t: string)
    requires MatchPicHeader(t).Some?
    ensures MatchPicHeader(t).value.Valid() && MatchPicHeader(t).value.Text() == t
  {
    var d := Leading(t, Digits);
    SplitAt(t, d);
    SplitAt(t[d..], 1);
    assert t[d..][1..] == t[d + 1..];
    assert t[d..][..1] == ".";
  }

  /** A task line: a hyphen, optional whitespace and at least one more character, the rest then stripped. */
  function MatchTaskLine(t: string): (r: Option<string>)
    ensures r.Some? <==> |t| >= 2 && t[0] == '-'
    ensures r.Some? ==> r.value == Strip(t[1..])
  {
    if |t| >= 2 && t[0] == '-' then Some(Strip(t[1..])) else None
  }

  /**
   * A line the task pattern accepts is a hyphen, whitespace and a non-empty
   * rest, and the description is that rest stripped; a line the pattern
   * rejects has no such shape.
   */
  lemma MatchTaskLineSound(t: string)
    ensures MatchTaskLine(t).Some? <==> exists w, x :: t == "-" + w + x && AllSpace(w) && x != []
    ensures MatchTaskLine(t).Some? ==>
              exists w, x :: t == "-" + w + x && AllSpace(w) && x != [] && MatchTaskLine(t).value == Strip(x)
  {
    if |t| >= 2 && t[0] == '-' {
      var w: string, x := [], t[1..];
      assert t == "-" + w + x && AllSpace(w) && x != [];
    } else {
      forall w: string, x: string | t == "-" + w + x && AllSpace(w)
        ensures x == []
      {
        assert t[0] == '-' && |t| == 1 + |w| + |x|;
      }
    }
  }

  /** Every hyphen, whitespace and non-empty rest is accepted, with the rest stripped as description. */
  lemma MatchTaskLineComplete(w: string, x: string)
    requires AllSpace(w) && x != []
    ensures MatchTaskLine("-" + w + x) == Some(Strip(x))
  {
    var t := "-" + w + x;
    assert t[1..] == w + x + [];
    StripIgnoresPadding(w, x, []);
  }

  /** What a date header sets the current date to. */
  function FormatDate(h: DateHeader): string {
    h.day + " " + MonthName(Lower(h.month)) + " " + h.year
  }

  /** The first three pieces a date header falls into when cut at every hyphen. */
  lemma {:induction false} DateHeaderSplit(h: DateHeader)
    requires h.Valid()
    ensures Split(h.Text(), '-') == [h.day + h.w1, h.w2 + h.month + h.w3, h.w4 + h.year]
  {
    var p0 := h.day + h.w1;
    var p1 := h.w2 + h.month + h.w3;
    var p2 := h.w4 + h.year;
    NoHyphen(h.day, Digits);
    NoHyphen(h.w1, Spaces);
    NoHyphen(h.w2, Spaces);
    NoHyphen(h.month, Letters);
    NoHyphen(h.w3, Spaces);
    NoHyphen(h.w4, Spaces);
    NoHyphen(h.year, Digits);
    var tail := "-" + p2;
    assert h.w2 + (h.month + (h.w3 + tail)) == p1 + tail;
    var rest := p1 + tail;
    assert h.Text() == p0 + ("-" + rest);
    SplitAtSeparator(p0, '-', rest);
    SplitAtSeparator(p1, '-', p2);
    SplitNoSeparator(p2, '-');
  }

  /** A well-formed date header parses to "<day> <Month> <year>" built from its pieces. */
  lemma ParseDateOfHeader(h: DateHeader)
    requires h.Valid()
    ensures ParseDateToString(h.Text()) == Some(FormatDate(h))
  {
    DateHeaderSplit(h);
    DateHeaderPieces(h);
    var parts := Split(h.Text(), '-');
    assert Strip(parts[0]) == h.day && Strip(parts[1]) == h.month && Strip(parts[2]) == h.year;
  }

  /** A header naming an Indonesian month, in any letter case, gives the date with the English month. */
  lemma ParseDateTranslates(h: DateHeader, i: nat)
    requires h.Valid() && i < |Months.Table| && Lower(h.month) == Months.Table[i].0
    ensures ParseDateToString(h.Text()) == Some(h.day + " " + Months.Table[i].1 + " " + h.year)
  {
    ParseDateOfHeader(h);
    MonthNameTranslates(i);
  }

  /** Stripping each piece leaves the day, the month and the year. */
  lemma DateHeaderPieces(h: DateHeader)
    requires h.Valid()
    ensures Strip(h.day + h.w1) == h.day
    ensures Strip(h.w2 + h.month + h.w3) == h.month
    ensures Strip(h.w4 + h.year) == h.year
  {
    assert h.day + h.w1 == [] + h.day + h.w1;
    StripPiece([], h.day, h.w1, Digits);
    StripPiece(h.w2, h.month, h.w3, Letters);
    assert h.w4 + h.year == h.w4 + h.year + [];
    StripPiece(h.w4, h.year, [], Digits);
  }

  /** A nonempty run of digits or letters between whitespace strips to itself. */
  lemma StripPiece(w1: string, x: string, w2: string, k: CharClass)
    requires AllIn(Spaces, w1) && AllIn(Spaces, w2)
    requires k != Spaces && x != [] && AllIn(k, x)
    ensures Strip(w1 + x + w2) == x
  {
    assert AllSpace(w1) && AllSpace(w2);
    assert In(k, x[0]) && In(k, x[|x| - 1]);
    StripPadded(w1, x, w2);
  }

  /** A matched date header always parses, to "<day> <Month> <year>" built from its pieces. */
  lemma DateHeaderParses(t: string)
    requires MatchDateHeader(t).Some?
    ensures ParseDateToString(t) == Some(FormatDate(MatchDateHeader(t).value))
  {
    MatchDateHeaderSound(t);
    ParseDateOfHeader(MatchDateHeader(t).value);
  }

  /** A PIC header is never also a date header: after its digits comes a '.', never a '-'. */
  lemma PicHeaderIsNotDate(t: string)
    requires MatchPicHeader(t).Some?
    ensures MatchDateHeader(t).None?
  {
    var d := Leading(t, Digits);
    if 1 <= d <= 2 {
      assert t[d..][0] == '.';
      assert Leading(t[d..], Spaces) == 0;
    }
  }

  /** Every well-formed date header is recognised, with exactly its own pieces. */
  lemma DateHeaderComplete(h: DateHeader)
    requires h.Valid()
    ensures MatchDateHeader(h.Text()) == Some(h)
  {
    var tail := h.w3 + ("-" + (h.w4 + h.year));
    var r1 := h.month + tail;
    var x := h.w1 + ("-" + (h.w2 + r1));
    var t := h.Text();
    assert t == h.day + x;
    var d := Leading(t, Digits);
    assert d == |h.day| && t[d..] == x && t[..d] == h.day by {
      SepStart(h.w1, h.w2 + r1);
      LeadingStops(h.day, x, Digits);
    }
    assert MatchSep(t[d..]) == Some(Sep(h.w1, h.w2, r1)) by {
      assert In(Letters, h.month[0]);
      MatchSepComplete(h.w1, h.w2, r1);
    }
    var m := Leading(r1, Letters);
    assert m == |h.month| && r1[m..] == tail && r1[..m] == h.month by {
      SepStart(h.w3, h.w4 + h.year);
      LeadingStops(h.month, tail, Letters);
    }
    assert MatchSep(r1[m..]) == Some(Sep(h.w3, h.w4, h.year)) by {
      assert In(Digits, h.year[0]);
      DigitNotSpace(h.year[0]);
      MatchSepComplete(h.w3, h.w4, h.year);
    }
    MatchDateHeaderOf(t, d, Sep(h.w1, h.w2, r1), m, Sep(h.w3, h.w4, h.year));
  }

  /** The date pattern accepts a line once its four scans are known to succeed. */
  lemma MatchDateHeaderOf(t: string, d: nat, s1: Sep, m: nat, s2: Sep)
    requires d == Leading(t, Digits) && 1 <= d <= 2 && MatchSep(t[d..]) == Some(s1)
    requires m == Leading(s1.rest, Letters) && m > 0 && MatchSep(s1.rest[m..]) == Some(s2)
    requires |s2.rest| == 4 && AllIn(Digits, s2.rest)
    ensures MatchDateHeader(t) == Some(DateHeader(t[..d], s1.before, s1.after, s1.rest[..m], s2.before, s2.after, s2.rest))
  {
  }

  /** Every well-formed PIC header is recognised, with exactly its own pieces. */
  lemma PicHeaderComplete(h: PicHeader)
    requires h.Valid()
    ensures MatchPicHeader(h.Text()) == Some(h)
  {
    var t := h.Text();
    LeadingStops(h.number, "." + h.rest, Digits);
    assert t[..|h.number|] == h.number;
    assert t[|h.number| + 1..] == h.rest;
  }

  // ---------------------------------------------------------------------
  // The per-line transition and the whole run
  // ---------------------------------------------------------------------

  /** What every emitted record looks like. */
  predicate WellFormed(r: TaskRecord) {
    r.backlog != [] && IsStripped(r.backlog)
    && r.canonicalBacklog == CanonicalText(Str(r.backlog))
    && r.pic != [] && r.status == "InProgress" && r.startDate != [] && r.endDate == []
  }

  /**
   * What one line is to the loop body: the first of its branches that
   * applies to the stripped line, with the value that branch computes.
   */
  datatype LineKind =
    | Skip                              // blank, or a '=' separator
    | DateLine(date: Option<string>)    // the date header, parsed by parse_date_to_string
    | PicLine(name: string)             // the PIC header's name
    | TaskLine(description: string, canonical: string)  // a task line's stripped description and its key
    | Other                             // anything else

  function Classify(line: string): LineKind {
    var t := Strip(line);
    if t == [] || t[0] == '=' then Skip
    else if MatchDateHeader(t).Some? then DateLine(ParseDateToString(t))
    else if MatchPicHeader(t).Some? then PicLine(MatchPicHeader(t).value.Name())
    else if MatchTaskLine(t).Some? then
      var d := MatchTaskLine(t).value;
      TaskLine(d, CanonicalText(Str(d)))
    else Other
  }

  /** The classification of every line, in order. */
  function Kinds(lines: seq<string>): (ks: seq<LineKind>)
    ensures |ks| == |lines|
  {
    if lines == [] then [] else Kinds(lines[..|lines| - 1]) + [Classify(lines[|lines| - 1])]
  }

  /** Each line is classified on its own. */
  lemma {:induction false} KindsAt(lines: seq<string>, i: nat)
    requires i < |lines|
    ensures Kinds(lines)[i] == Classify(lines[i])
  {
    if i < |lines| - 1 {
      KindsAt(lines[..|lines| - 1], i);
    }
  }

  /** Classifying is done line by line. */
  lemma {:induction false} KindsAppend(a: seq<string>, b: seq<string>)
    ensures Kinds(a + b) == Kinds(a) + Kinds(b)
  {
    if b == [] {
      assert a + b == a;
    } else {
      var b' := b[..|b| - 1];
      assert (a + b)[..|a + b| - 1] == a + b';
      KindsAppend(a, b');
    }
  }

  /** What a classified line always carries: headers give truthy values, task descriptions are stripped and nonempty. */
  predicate Sound(k: LineKind) {
    match k
    case DateLine(d) => Truthy(d)
    case PicLine(n) => n != []
    case TaskLine(d, c) => d != [] && IsStripped(d) && c == CanonicalText(Str(d))
    case _ => true
  }

  /** A date header sets the date from its pieces. */
  lemma ClassifyDateHeader(line: string)
    requires MatchDateHeader(Strip(line)).Some?
    ensures Classify(line) == DateLine(Some(FormatDate(MatchDateHeader(Strip(line)).value)))
  {
    DateHeaderParses(Strip(line));
  }

  /** Every line classifies soundly. */
  lemma ClassifySound(line: string)
    ensures Sound(Classify(line))
  {
    var t := Strip(line);
    if t != [] && t[0] != '=' {
      if MatchDateHeader(t).Some? {
        ClassifyDateHeader(line);
      } else if MatchPicHeader(t).Some? {
        var h := MatchPicHeader(t).value;
        MatchPicHeaderSound(t);
        assert h.rest[|h.rest| - 1] == t[|t| - 1];
        StripEmpty(h.rest);
      } else if MatchTaskLine(t).Some? {
        assert t[|t| - 1] == t[1..][|t| - 2];
        StripEmpty(t[1..]);
      }
    }
  }

  /**
   * One iteration of the parser's loop: a header replaces its own piece of
   * the state, a task line emits a record when date and PIC are both set.
   */
  function Step(st: ParserState, k: LineKind): (ParserState, seq<TaskRecord>) {
    match k
    case DateLine(d) => (st.(date := d), [])
    case PicLine(n) => (st.(pic := Some(n)), [])
    case TaskLine(d, c) =>
      if Truthy(st.date) && Truthy(st.pic) then (st, [TaskRecord(d, c, st.pic.value, "InProgress", st.date.value, "")])
      else (st, [])
    case _ => (st, [])
  }

  /** The loop run over `kinds` from state `st`: the final state and the records, in order. */
  function Run(st: ParserState, kinds: seq<LineKind>): (r: (ParserState, seq<TaskRecord>))
    ensures |r.1| <= |kinds|
  {
    if kinds == [] then (st, [])
    else
      var before := Run(st, kinds[..|kinds| - 1]);
      var after := Step(before.0, kinds[|kinds| - 1]);
      (after.0, before.1 + after.1)
  }

  /** The lines the parser walks: the stripped text split on '\n'. */
  function Lines(rawText: string): seq<string> {
    Split(Strip(rawText), '\n')
  }

  /** The parser: the text stripped and split into lines, then the loop over them from an empty state. */
  method ProcessTelegramText(rawText: string) returns (records: seq<TaskRecord>)
    ensures records == Run(Initial, Kinds(Lines(rawText))).1
    ensures forall i :: 0 <= i < |records| ==> WellFormed(records[i])
  {
    var lines := Split(Strip(rawText), '\n');
    var currentDate: Option<string> := None;
    var currentPic: Option<string> := None;
    records := [];
    for i := 0 to |lines|
      invariant Run(Initial, Kinds(lines[..i])) == (ParserState(currentDate, currentPic), records)
    {
      RunNextLine(lines, i);
      var emitted;
      currentDate, currentPic, emitted := ProcessLine(lines[i], currentDate, currentPic);
      records := records + emitted;
    }
    assert lines[..|lines|] == lines;
    KindsSound(lines);
    RunWellFormed(Initial, Kinds(lines));
  }

  /** Running one more line is one more step after the run so far. */
  lemma RunNextLine(lines: seq<string>, i: nat)
    requires i < |lines|
    ensures var before := Run(Initial, Kinds(lines[..i]));
            var after := Step(before.0, Classify(lines[i]));
            Run(Initial, Kinds(lines[..i + 1])) == (after.0, before.1 + after.1)
  {
    assert lines[..i + 1][..i] == lines[..i];
    assert (Kinds(lines[..i]) + [Classify(lines[i])])[..i] == Kinds(lines[..i]);
  }

  /** The body of the parser's loop for one line: the new date and PIC, and the record it emits if any. */
  method ProcessLine(line: string, currentDate: Option<string>, currentPic: Option<string>)
    returns (newDate: Option<string>, newPic: Option<string>, emitted: seq<TaskRecord>)
    ensures (ParserState(newDate, newPic), emitted) == Step(ParserState(currentDate, currentPic), Classify(line))
  {
    ClassifyCases(line);
    newDate, newPic, emitted := currentDate, currentPic, [];
    var trimmedLine := Strip(line);
    if trimmedLine == [] || trimmedLine[0] == '=' {
      assert Classify(line) == Skip;
      return;
    }
    var dateMatch := MatchDateHeader(trimmedLine);
    if dateMatch.Some? {
      newDate := ParseDateToString(trimmedLine);
      assert Classify(line) == DateLine(newDate);
      return;
    }
    var picMatch := MatchPicHeader(trimmedLine);
    if picMatch.Some? {
      newPic := Some(picMatch.value.Name());
      assert Classify(line) == PicLine(newPic.value);
      return;
    }
    var taskMatch := MatchTaskLine(trimmedLine);
    assert Classify(line) == if taskMatch.Some?
      then TaskLine(taskMatch.value, CanonicalText(Str(taskMatch.value))) else Other;
    if taskMatch.Some? && Truthy(currentDate) && Truthy(currentPic) {
      var fullDescription := taskMatch.value;
      emitted := [TaskRecord(fullDescription, CanonicalText(Str(fullDescription)),
                             currentPic.value, "InProgress", currentDate.value, "")];
    }
  }

  /** Which branch of the loop body a line takes, case by case. */
  lemma ClassifyCases(line: string)
    ensures var t := Strip(line);
      && ((t == [] || t[0] == '=') ==> Classify(line) == Skip)
      && (t != [] && t[0] != '=' && MatchDateHeader(t).Some? ==>
            Classify(line) == DateLine(ParseDateToString(t)))
      && (t != [] && t[0] != '=' && MatchDateHeader(t).None? && MatchPicHeader(t).Some? ==>
            Classify(line) == PicLine(MatchPicHeader(t).value.Name()))
      && (t != [] && t[0] != '=' && MatchDateHeader(t).None? && MatchPicHeader(t).None? ==>
            if MatchTaskLine(t).Some?
            then Classify(line) == TaskLine(MatchTaskLine(t).value, CanonicalText(Str(MatchTaskLine(t).value)))
            else Classify(line) == Other)
  {
  }

  /** Every line of a text classifies soundly. */
  lemma KindsSound(lines: seq<string>)
    ensures forall i :: 0 <= i < |lines| ==> Sound(Kinds(lines)[i])
  {
    forall i | 0 <= i < |lines|
      ensures Sound(Kinds(lines)[i])
    {
      KindsAt(lines, i);
      ClassifySound(lines[i]);
    }
  }

  // ---------------------------------------------------------------------
  // Properties of the run
  // ---------------------------------------------------------------------

  /** Only task lines emit, one record at most, and then with the current date and PIC and no state change. */
  lemma StepEmits(st: ParserState, k: LineKind)
    ensures var r := Step(st, k);
      (r.1 != [] <==> k.TaskLine? && Truthy(st.date) && Truthy(st.pic))
      && (r.1 != [] ==> r.0 == st && r.1 == [TaskRecord(k.description, k.canonical, st.pic.value, "InProgress", st.date.value, "")])
      && (r.0.date != st.date ==> k.DateLine?)
      && (r.0.pic != st.pic ==> k.PicLine?)
  {
  }

  /** Sound lines keep every emitted record well-formed. */
  lemma {:induction false} RunWellFormed(st: ParserState, kinds: seq<LineKind>)
    requires forall i :: 0 <= i < |kinds| ==> Sound(kinds[i])
    ensures forall j :: 0 <= j < |Run(st, kinds).1| ==> WellFormed(Run(st, kinds).1[j])
  {
    if kinds != [] {
      var init := kinds[..|kinds| - 1];
      RunWellFormed(st, init);
      var k := kinds[|kinds| - 1];
      assert Sound(k);
      var before := Run(st, init);
      var after := Step(before.0, k);
      if after.1 != [] {
        var d := k.description;
        CanonicalTextIdempotent(Str(d));
        assert WellFormed(after.1[0]);
      }
    }
  }

  /** Running over two blocks of lines is running over the first, then the second: order is kept. */
  lemma {:induction false} RunAppend(st: ParserState, a: seq<LineKind>, b: seq<LineKind>)
    ensures Run(st, a + b)
         == (Run(Run(st, a).0, b).0, Run(st, a).1 + Run(Run(st, a).0, b).1)
  {
    if b == [] {
      assert a + b == a;
      assert Run(st, a).1 + [] == Run(st, a).1;
    } else {
      var b' := b[..|b| - 1];
      assert (a + b)[..|a + b| - 1] == a + b';
      assert (a + b)[|a + b| - 1] == b[|b| - 1];
      RunAppend(st, a, b');
      var m := Run(st, a);
      var x := Run(m.0, b');
      var y := Step(x.0, b[|b| - 1]);
      assert (m.1 + x.1) + y.1 == m.1 + (x.1 + y.1);
    }
  }

  /** Without a date header no record is emitted: task lines before any header are dropped. */
  lemma {:induction false} NoDateNoRecords(st: ParserState, kinds: seq<LineKind>)
    requires !Truthy(st.date)
    requires forall i :: 0 <= i < |kinds| ==> !kinds[i].DateLine?
    ensures Run(st, kinds).1 == []
    ensures Run(st, kinds).0.date == st.date
  {
    if kinds != [] {
      NoDateNoRecords(st, kinds[..|kinds| - 1]);
    }
  }

  /** Task lines under a set date and PIC each emit one record, with that date and PIC, in order. */
  lemma {:induction false} TasksUnderHeaders(st: ParserState, kinds: seq<LineKind>)
    requires Truthy(st.date) && Truthy(st.pic)
    requires forall i :: 0 <= i < |kinds| ==> kinds[i].TaskLine?
    ensures Run(st, kinds).0 == st
    ensures |Run(st, kinds).1| == |kinds|
    ensures forall i :: 0 <= i < |kinds| ==>
      Run(st, kinds).1[i]
        == TaskRecord(kinds[i].description, kinds[i].canonical, st.pic.value, "InProgress", st.date.value, "")
  {
    if kinds != [] {
      TasksUnderHeaders(st, kinds[..|kinds| - 1]);
    }
  }

  /** A task line is neither header, so it classifies as a task with its stripped description. */
  lemma ClassifyTaskLine(line: string)
    requires MatchTaskLine(Strip(line)).Some?
    ensures var d := MatchTaskLine(Strip(line)).value;
      Classify(line) == TaskLine(d, CanonicalText(Str(d)))
  {
    var t := Strip(line);
    assert Leading(t, Digits) == 0;
  }

  /** Task lines classify as tasks, each with its own stripped description. */
  lemma KindsOfTasks(tasks: seq<string>)
    requires forall i :: 0 <= i < |tasks| ==> MatchTaskLine(Strip(tasks[i])).Some?
    ensures forall i :: 0 <= i < |tasks| ==>
      Kinds(tasks)[i] == TaskLine(MatchTaskLine(Strip(tasks[i])).value,
                                  CanonicalText(Str(MatchTaskLine(Strip(tasks[i])).value)))
  {
    KindsEach(tasks);
    ClassifyTasks(tasks);
  }

  lemma KindsEach(lines: seq<string>)
    ensures forall i :: 0 <= i < |lines| ==> Kinds(lines)[i] == Classify(lines[i])
  {
    forall i | 0 <= i < |lines|
      ensures Kinds(lines)[i] == Classify(lines[i])
    {
      KindsAt(lines, i);
    }
  }

  lemma ClassifyTasks(tasks: seq<string>)
    requires forall i :: 0 <= i < |tasks| ==> MatchTaskLine(Strip(tasks[i])).Some?
    ensures forall i :: 0 <= i < |tasks| ==>
      Classify(tasks[i]) == TaskLine(MatchTaskLine(Strip(tasks[i])).value,
                                     CanonicalText(Str(MatchTaskLine(Strip(tasks[i])).value)))
  {
    forall i | 0 <= i < |tasks|
      ensures Classify(tasks[i]) == TaskLine(MatchTaskLine(Strip(tasks[i])).value,
                                             CanonicalText(Str(MatchTaskLine(Strip(tasks[i])).value)))
    {
      ClassifyTaskLine(tasks[i]);
    }
  }

  /** A PIC header sets the PIC to its stripped name, which is never empty. */
  lemma ClassifyPicHeader(line: string)
    requires MatchPicHeader(Strip(line)).Some?
    ensures Classify(line) == PicLine(MatchPicHeader(Strip(line)).value.Name())
    ensures MatchPicHeader(Strip(line)).value.Name() != []
  {
    PicHeaderIsNotDate(Strip(line));
    ClassifySound(line);
  }

  /** A date header and a PIC header followed by task lines: one record per task, in order. */
  lemma SectionRun(date: string, pic: string, kinds: seq<LineKind>)
    requires date != [] && pic != []
    requires forall i :: 0 <= i < |kinds| ==> kinds[i].TaskLine?
    ensures var out := Run(Initial, [DateLine(Some(date)), PicLine(pic)] + kinds).1;
      |out| == |kinds|
      && forall i :: 0 <= i < |kinds| ==>
        out[i] == TaskRecord(kinds[i].description, kinds[i].canonical, pic, "InProgress", date, "")
  {
    var head := [DateLine(Some(date)), PicLine(pic)];
    var st := ParserState(Some(date), Some(pic));
    assert Run(Initial, head[..1]) == (ParserState(Some(date), None), []) by {
      assert head[..1][..0] == [];
    }
    assert Run(Initial, head) == (st, []);
    RunAppend(Initial, head, kinds);
    TasksUnderHeaders(st, kinds);
    assert Run(Initial, head + kinds).1 == Run(st, kinds).1 by {
      assert [] + Run(st, kinds).1 == Run(st, kinds).1;
    }
  }

  /**
   * A report made of a date header, a PIC header and N task lines yields
   * exactly N records, in order, all with that date and that PIC.
   */
  lemma OneSectionReport(dateLine: string, picLine: string, tasks: seq<string>)
    requires MatchDateHeader(Strip(dateLine)).Some?
    requires MatchPicHeader(Strip(picLine)).Some?
    requires forall i :: 0 <= i < |tasks| ==> MatchTaskLine(Strip(tasks[i])).Some?
    ensures var out := Run(Initial, Kinds([dateLine, picLine] + tasks)).1;
      |out| == |tasks|
      && forall i :: 0 <= i < |tasks| ==>
        var d := MatchTaskLine(Strip(tasks[i])).value;
        out[i] == TaskRecord(d, CanonicalText(Str(d)), MatchPicHeader(Strip(picLine)).value.Name(),
                             "InProgress", FormatDate(MatchDateHeader(Strip(dateLine)).value), "")
  {
    var date := FormatDate(MatchDateHeader(Strip(dateLine)).value);
    var pic := MatchPicHeader(Strip(picLine)).value.Name();
    ClassifyPicHeader(picLine);
    SectionKinds(dateLine, picLine, tasks);
    KindsOfTasks(tasks);
    SectionRun(date, pic, Kinds(tasks));
  }

  lemma SectionKinds(dateLine: string, picLine: string, tasks: seq<string>)
    requires MatchDateHeader(Strip(dateLine)).Some?
    requires MatchPicHeader(Strip(picLine)).Some?
    ensures Kinds([dateLine, picLine] + tasks)
         == [DateLine(Some(FormatDate(MatchDateHeader(Strip(dateLine)).value))),
             PicLine(MatchPicHeader(Strip(picLine)).value.Name())] + Kinds(tasks)
  {
    ClassifyDateHeader(dateLine);
    ClassifyPicHeader(picLine);
    KindsAppend([dateLine, picLine], tasks);
    KindsPair(dateLine, picLine);
  }

  lemma KindsPair(a: string, b: string)
    ensures Kinds([a, b]) == [Classify(a), Classify(b)]
  {
    assert [a][..0] == [];
    assert [a, b][..1] == [a];
  }
}
