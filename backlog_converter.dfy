/**
 * The backlog converter: dates with Indonesian month names, the round-robin
 * choice of API key, and turning the language model's pipe-separated reply
 * into backlog rows that keep the canonical text of the tasks they came from.
 * The model call itself is a parameter.
 */
module BacklogConverter {
  import opened Wrappers
  import opened Strings
  import Months
  import opened TaskConverter

  // ---------------------------------------------------------------------
  // convert_mixed_language_date
  // ---------------------------------------------------------------------

  /** No pattern of the table is empty, so each `replace` in the chain is defined. */
  predicate KeysNonEmpty(table: seq<(string, string)>) {
    forall i :: 0 <= i < |table| ==> table[i].0 != []
  }

  lemma MonthKeysNonEmpty()
    ensures KeysNonEmpty(Months.Table)
  {
  }

  /** Each pair's pattern replaced by its text throughout, one pair after the other in table order. */
  function ReplaceEach(s: string, table: seq<(string, string)>): string
    requires KeysNonEmpty(table)
    decreases |table|
  {
    if table == [] then s
    else ReplaceEach(ReplaceAll(s, table[0].0, table[0].1), table[1..])
  }

  /** What `convert_mixed_language_date` returns: None for a non-string or a blank one. */
  function MixedLanguageDate(v: Value): Option<string> {
    match v
    case NonStr => None
    case Str(s) =>
      if Strip(s) == [] then None
      else
        MonthKeysNonEmpty();
        Some(ReplaceEach(Lower(s), Months.Table))
  }

  /** `convert_mixed_language_date`: lower-case, then substitute the month names one by one. */
  method ConvertMixedLanguageDate(v: Value) returns (r: Option<string>)
    ensures r == MixedLanguageDate(v)
  {
    if v.NonStr? || Strip(v.s) == [] {
      return None;
    }
    MonthKeysNonEmpty();
    var processed := Lower(v.s);
    for i := 0 to |Months.Table|
      invariant ReplaceEach(processed, Months.Table[i..]) == ReplaceEach(Lower(v.s), Months.Table)
    {
      ReplaceEachStep(processed, Months.Table, i);
      processed := ReplaceAll(processed, Months.Table[i].0, Months.Table[i].1);
    }
    assert Months.Table[|Months.Table|..] == [];
    r := Some(processed);
  }

  /** The chain from row `i` on is row `i`'s replacement followed by the chain from row `i + 1`. */
  lemma ReplaceEachStep(s: string, table: seq<(string, string)>, i: nat)
    requires KeysNonEmpty(table) && i < |table|
    ensures ReplaceEach(s, table[i..])
            == ReplaceEach(ReplaceAll(s, table[i].0, table[i].1), table[i + 1..])
  {
    assert table[i..][0] == table[i];
    assert table[i..][1..] == table[i + 1..];
  }

  /** Exactly the non-strings and the blank strings give None. */
  lemma MixedLanguageDateNone(v: Value)
    ensures MixedLanguageDate(v).None? <==> v.NonStr? || AllSpace(v.s)
  {
    if v.Str? {
      StripEmpty(v.s);
    }
  }

  /** A chain of replacements whose patterns do not occur changes nothing. */
  lemma {:induction false} ReplaceEachAbsent(s: string, table: seq<(string, string)>)
    requires KeysNonEmpty(table)
    requires forall i :: 0 <= i < |table| ==> !Occurs(table[i].0, s)
    ensures ReplaceEach(s, table) == s
  {
    if table != [] {
      ReplaceAbsent(s, table[0].0, table[0].1);
      ReplaceEachAbsent(s, table[1..]);
    }
  }

  /** A date with no Indonesian month name comes back lower-cased, not unchanged. */
  lemma NoMonthIsLowered(s: string)
    requires !AllSpace(s)
    requires forall i :: 0 <= i < |Months.Table| ==> !Occurs(Months.Table[i].0, Lower(s))
    ensures MixedLanguageDate(Str(s)) == Some(Lower(s))
  {
    StripEmpty(s);
    MonthKeysNonEmpty();
    ReplaceEachAbsent(Lower(s), Months.Table);
  }

  /** The patterns of a table fit a date: they hold no space and begin with a letter. */
  predicate WordKeys(table: seq<(string, string)>) {
    forall i :: 0 <= i < |table| ==> table[i].0 != [] && ' ' !in table[i].0 && IsLetter(table[i].0[0])
  }

  lemma MonthKeysWords()
    ensures WordKeys(Months.Table)
  {
    forall i | 0 <= i < |Months.Table|
      ensures Months.Table[i].0 != [] && ' ' !in Months.Table[i].0 && IsLetter(Months.Table[i].0[0])
    {
      assert i == 0 || i == 1 || i == 2 || i == 3 || i == 4 || i == 5 || i == 6 || i == 7 || i == 8 || i == 9 || i == 10 || i == 11;
    }
  }

  /** The chain of replacements touches only the word between the day and the year. */
  lemma {:induction false} ReplaceEachInWord(d: string, w: string, y: string, table: seq<(string, string)>)
    requires WordKeys(table) && AllDigits(d) && AllDigits(y)
    ensures KeysNonEmpty(table)
    ensures ReplaceEach(d + " " + w + " " + y, table) == d + " " + ReplaceEach(w, table) + " " + y
    decreases |table|
  {
    if table != [] {
      ReplaceInWord(d, w, y, table[0].0, table[0].1);
      ReplaceEachInWord(d, ReplaceAll(w, table[0].0, table[0].1), y, table[1..]);
    }
  }

  /**
   * Row `i` of a table is isolated when no earlier pattern occurs in its
   * pattern and no later pattern occurs in its replacement.
   */
  predicate Isolated(table: seq<(string, string)>, i: nat)
    requires i < |table|
  {
    (forall j :: 0 <= j < i ==> !Occurs(table[j].0, table[i].0))
    && (forall j :: i < j < |table| ==> !Occurs(table[j].0, table[i].1))
  }

  /** The chain maps the pattern of an isolated row to that row's replacement. */
  lemma {:induction false} ReplaceEachIsolated(table: seq<(string, string)>, i: nat)
    requires KeysNonEmpty(table) && i < |table| && Isolated(table, i)
    ensures ReplaceEach(table[i].0, table) == table[i].1
    decreases i
  {
    var w := table[i].0;
    if i == 0 {
      ReplaceFirst([], w, [], table[0].1);
      assert [] + w + [] == w;
      assert table[0].1 + [] == table[0].1;
      forall j | 0 <= j < |table[1..]|
        ensures !Occurs(table[1..][j].0, table[0].1)
      {
        assert table[1..][j] == table[j + 1];
      }
      ReplaceEachAbsent(table[0].1, table[1..]);
    } else {
      ReplaceAbsent(w, table[0].0, table[0].1);
      assert table[1..][i - 1] == table[i];
      forall j | 0 <= j < i - 1
        ensures !Occurs(table[1..][j].0, table[1..][i - 1].0)
      {
        assert table[1..][j] == table[j + 1];
      }
      forall j | i - 1 < j < |table[1..]|
        ensures !Occurs(table[1..][j].0, table[1..][i - 1].1)
      {
        assert table[1..][j] == table[j + 1];
      }
      ReplaceEachIsolated(table[1..], i - 1);
    }
  }

  /** A pattern longer than the text, or with one of its first three characters missing from it, is absent. */
  predicate Excluded(pat: string, s: string) {
    |s| < |pat| || (|pat| >= 3 && (pat[0] !in s || pat[1] !in s || pat[2] !in s))
  }

  lemma ExcludedAbsent(pat: string, s: string)
    requires Excluded(pat, s)
    ensures !Occurs(pat, s)
  {
    forall i | 0 <= i <= |s| - |pat|
      ensures !StartsWith(s[i..], pat)
    {
      if |pat| >= 3 {
        assert s[i..][..|pat|][0] == s[i] && s[i..][..|pat|][1] == s[i + 1] && s[i..][..|pat|][2] == s[i + 2];
      }
    }
  }

  lemma EarlierMonthsA(i: nat, j: nat)
    requires j < i && 1 <= i <= 5
    ensures Excluded(Months.Table[j].0, Months.Table[i].0)
  {
    assert i == 1 || i == 2 || i == 3 || i == 4 || i == 5;
    assert j == 0 || j == 1 || j == 2 || j == 3 || j == 4;
  }

  lemma EarlierMonthsB(i: nat, j: nat)
    requires j < i && 6 <= i <= 8
    ensures Excluded(Months.Table[j].0, Months.Table[i].0)
  {
    assert i == 6 || i == 7 || i == 8;
    assert j == 0 || j == 1 || j == 2 || j == 3 || j == 4 || j == 5 || j == 6 || j == 7;
  }

  lemma EarlierMonthsC(i: nat, j: nat)
    requires j < i && 9 <= i <= 11
    ensures Excluded(Months.Table[j].0, Months.Table[i].0)
  {
    assert i == 9 || i == 10 || i == 11;
    assert j == 0 || j == 1 || j == 2 || j == 3 || j == 4 || j == 5 || j == 6 || j == 7 || j == 8 || j == 9 || j == 10;
  }

  lemma LaterMonthsA(i: nat, j: nat)
    requires i < j < 12 && i <= 2
    ensures Excluded(Months.Table[j].0, Months.Table[i].1)
  {
    assert i == 0 || i == 1 || i == 2;
    assert j == 1 || j == 2 || j == 3 || j == 4 || j == 5 || j == 6 || j == 7 || j == 8 || j == 9 || j == 10 || j == 11;
  }

  lemma LaterMonthsB(i: nat, j: nat)
    requires i < j < 12 && 3 <= i <= 5
    ensures Excluded(Months.Table[j].0, Months.Table[i].1)
  {
    assert i == 3 || i == 4 || i == 5;
    assert j == 4 || j == 5 || j == 6 || j == 7 || j == 8 || j == 9 || j == 10 || j == 11;
  }

  lemma LaterMonthsC(i: nat, j: nat)
    requires i < j < 12 && 6 <= i
    ensures Excluded(Months.Table[j].0, Months.Table[i].1)
  {
    assert i == 6 || i == 7 || i == 8 || i == 9 || i == 10;
    assert j == 7 || j == 8 || j == 9 || j == 10 || j == 11;
  }

  /** Every month row is isolated, so each Indonesian name turns into its English one. */
  lemma MonthsIsolated(i: nat)
    requires i < |Months.Table|
    ensures Isolated(Months.Table, i)
  {
    forall j | 0 <= j < i
      ensures !Occurs(Months.Table[j].0, Months.Table[i].0)
    {
      if i <= 5 {
        EarlierMonthsA(i, j);
      } else if i <= 8 {
        EarlierMonthsB(i, j);
      } else {
        EarlierMonthsC(i, j);
      }
      ExcludedAbsent(Months.Table[j].0, Months.Table[i].0);
    }
    forall j | i < j < |Months.Table|
      ensures !Occurs(Months.Table[j].0, Months.Table[i].1)
    {
      if i <= 2 {
        LaterMonthsA(i, j);
      } else if i <= 5 {
        LaterMonthsB(i, j);
      } else {
        LaterMonthsC(i, j);
      }
      ExcludedAbsent(Months.Table[j].0, Months.Table[i].1);
    }
  }

  /** Lower-casing leaves digits alone. */
  lemma LowerDigits(s: string)
    requires AllDigits(s)
    ensures Lower(s) == s
  {
  }

  /**
   * A date written as day, month name in any letter case, year, all
   * separated by single spaces, comes back with the English month name and
   * the digits untouched.
   */
  lemma MonthNameReplaced(d: string, m: string, y: string, i: nat)
    requires AllDigits(d) && AllDigits(y) && i < |Months.Table| && Lower(m) == Months.Table[i].0
    ensures MixedLanguageDate(Str(d + " " + m + " " + y)) == Some(d + " " + Months.Table[i].1 + " " + y)
  {
    var s := d + " " + m + " " + y;
    MonthKeysWords();
    MonthKeysNonEmpty();
    calc {
      Lower(s);
      { LowerAppend(d + " " + m + " ", y); LowerAppend(d + " " + m, " ");
        LowerAppend(d + " ", m); LowerAppend(d, " "); }
      Lower(d) + Lower(" ") + Lower(m) + Lower(" ") + Lower(y);
      { LowerDigits(d); LowerDigits(y); }
      d + " " + Months.Table[i].0 + " " + y;
    }
    assert LowerChar(s[|d| + 1]) == Months.Table[i].0[0];
    assert !AllSpace(s);
    StripEmpty(s);
    ReplaceEachInWord(d, Months.Table[i].0, y, Months.Table);
    MonthsIsolated(i);
    ReplaceEachIsolated(Months.Table, i);
  }

  /** An upper-case instance of the lemma above: "11 SEPTEMBER 2025" becomes "11 September 2025". */
  lemma UpperCaseMonth(d: string, y: string)
    requires AllDigits(d) && AllDigits(y)
    ensures MixedLanguageDate(Str(d + " SEPTEMBER " + y)) == Some(d + " September " + y)
  {
    var m := "SEPTEMBER";
    var l := Lower(m);
    assert l[0] == 's' && l[1] == 'e' && l[2] == 'p' && l[3] == 't' && l[4] == 'e';
    assert l[5] == 'm' && l[6] == 'b' && l[7] == 'e' && l[8] == 'r';
    assert Months.Table[8] == ("september", "September");
    assert d + " " + m + " " + y == d + " SEPTEMBER " + y;
    assert d + " " + "September" + " " + y == d + " September " + y;
    MonthNameReplaced(d, m, y, 8);
  }

  // ---------------------------------------------------------------------
  // The API keys and their rotation
  // ---------------------------------------------------------------------

  /** The keys: the text cut at every comma, each piece stripped of surrounding whitespace. */
  function ApiKeys(s: string): (keys: seq<string>)
    ensures |keys| == Count(s, ',') + 1
  {
    var parts := Split(s, ',');
    seq(|parts|, i requires 0 <= i < |parts| => Strip(parts[i]))
  }

  /** Every key is stripped and free of commas. */
  lemma ApiKeysClean(s: string)
    ensures forall i :: 0 <= i < |ApiKeys(s)| ==> IsStripped(ApiKeys(s)[i]) && ',' !in ApiKeys(s)[i]
  {
    SplitPartsFree(s, ',');
    forall i | 0 <= i < |ApiKeys(s)|
      ensures ',' !in ApiKeys(s)[i]
    {
      if ',' in ApiKeys(s)[i] {
        StripKeeps(Split(s, ',')[i], ',');
      }
    }
  }

  /** Keys written out comma-separated are read back as the same list. */
  lemma ApiKeysRoundTrip(keys: seq<string>)
    requires keys != []
    requires forall i :: 0 <= i < |keys| ==> IsStripped(keys[i]) && ',' !in keys[i]
    ensures ApiKeys(Join(keys, ",")) == keys
  {
    SplitJoin(keys, ',');
    forall i | 0 <= i < |keys|
      ensures Strip(keys[i]) == keys[i]
    {
      StrippedIsFixpoint(keys[i]);
    }
  }

  /** The index after one rotation over `n` keys. */
  function NextIndex(i: nat, n: nat): nat
    requires n > 0
  {
    (i + 1) % n
  }

  /** The index after `k` rotations, starting from 0. */
  function IndexAfter(k: nat, n: nat): (i: nat)
    requires n > 0
    ensures i < n
  {
    if k == 0 then 0 else NextIndex(IndexAfter(k - 1, n), n)
  }

  /** Euclidean division leaves one remainder only. */
  lemma ModUnique(k: int, n: int, q: int, r: int)
    requires n > 0 && 0 <= r < n && k == q * n + r
    ensures k % n == r
  {
    var q2 := k / n;
    var r2 := k % n;
    assert k == q2 * n + r2;
    assert (q - q2) * n == r2 - r;
    if q > q2 {
      MulAtLeast(q - q2, n);
    } else if q < q2 {
      MulAtLeast(q2 - q, n);
    }
  }

  lemma {:induction false} MulAtLeast(d: int, n: int)
    requires d >= 1 && n > 0
    ensures d * n >= n
  {
    if d > 1 {
      MulAtLeast(d - 1, n);
      assert d * n == (d - 1) * n + n;
    }
  }

  lemma ModSucc(k: nat, n: nat)
    requires n > 0
    ensures (k % n + 1) % n == (k + 1) % n
  {
    var q := k / n;
    var r := k % n;
    assert k == q * n + r;
    if r + 1 < n {
      ModUnique(k + 1, n, q, r + 1);
      ModUnique(r + 1, n, 0, r + 1);
    } else {
      assert k + 1 == (q + 1) * n + 0;
      ModUnique(k + 1, n, q + 1, 0);
      ModUnique(r + 1, n, 1, 0);
    }
  }

  /** After `k` rotations the index is `k mod n`. */
  lemma {:induction false} IndexAfterIsMod(k: nat, n: nat)
    requires n > 0
    ensures IndexAfter(k, n) == k % n
  {
    if k > 0 {
      calc {
        IndexAfter(k, n);
        NextIndex(IndexAfter(k - 1, n), n);
        { IndexAfterIsMod(k - 1, n); }
        ((k - 1) % n + 1) % n;
        { ModSucc(k - 1, n); }
        k % n;
      }
    } else {
      ModUnique(0, n, 0, 0);
    }
  }

  /** Round robin: `n` more rotations come back to the same key. */
  lemma RoundRobin(k: nat, n: nat)
    requires n > 0
    ensures IndexAfter(k + n, n) == IndexAfter(k, n)
  {
    IndexAfterIsMod(k + n, n);
    IndexAfterIsMod(k, n);
    ShiftMod(k, n);
  }

  lemma ShiftMod(k: nat, n: nat)
    requires n > 0
    ensures (k + n) % n == k % n
  {
    var q := k / n;
    assert k == q * n + k % n;
    assert k + n == (q + 1) * n + k % n;
    ModUnique(k + n, n, q + 1, k % n);
  }

  const MissingKeysMessage := "String API Key tidak ditemukan."

  /** What the model is asked: the known Epics, rendered as a list, and the new backlog rows. */
  datatype Prompt = Prompt(epicList: string, backlog: seq<TaskRecord>)

  /** `BacklogProcessor`: the list of keys and the index of the one in use. */
  class BacklogProcessor {
    const apiKeys: seq<string>
    var currentKeyIndex: nat
    /** How many times the key has been rotated since construction. */
    ghost var rotations: nat

    ghost predicate Valid()
      reads this
    {
      |apiKeys| > 0 && currentKeyIndex == IndexAfter(rotations, |apiKeys|)
    }

    /** `__init__` for a non-empty key string; `NewBacklogProcessor` models the error. */
    constructor (apiKeysString: string)
      requires apiKeysString != []
      ensures Valid()
      ensures apiKeys == ApiKeys(apiKeysString) && currentKeyIndex == 0 && rotations == 0
    {
      apiKeys := ApiKeys(apiKeysString);
      currentKeyIndex := 0;
      rotations := 0;
    }

    /** `_rotate_and_configure_api_key`: moves to the next key and returns the key now in use. */
    method RotateAndConfigureApiKey() returns (key: string)
      requires Valid()
      modifies this
      ensures Valid()
      ensures rotations == old(rotations) + 1
      ensures currentKeyIndex == (old(currentKeyIndex) + 1) % |apiKeys|
      ensures key == apiKeys[currentKeyIndex]
    {
      currentKeyIndex := (currentKeyIndex + 1) % |apiKeys|;
      rotations := rotations + 1;
      key := apiKeys[currentKeyIndex];
    }

    /** `_call_llm`: rotate, then ask; a failed call gives the empty text. */
    method CallLlm(prompt: Prompt, llm: Prompt -> Option<string>) returns (text: string)
      requires Valid()
      modifies this
      ensures Valid()
      ensures rotations == old(rotations) + 1
      ensures currentKeyIndex == (old(currentKeyIndex) + 1) % |apiKeys|
      ensures text == LlmResult(llm(prompt))
    {
      var _ := RotateAndConfigureApiKey();
      var reply := llm(prompt);
      text := if reply.Some? then Strip(reply.value) else [];
    }

    /**
     * `get_epics_for_new_tasks`: ask the model once, then keep its rows only when
     * there are as many as there were tasks.
     */
    method GetEpicsForNewTasks(input: seq<TaskRecord>, existingEpics: seq<string>, llm: Prompt -> Option<string>)
      returns (result: Option<seq<BacklogRow>>)
      requires Valid()
      modifies this
      ensures Valid()
      ensures rotations == old(rotations) + 1
      ensures currentKeyIndex == (old(currentKeyIndex) + 1) % |apiKeys|
      ensures result == EpicsFor(input, llm(CreatePrompt(input, existingEpics)))
    {
      var prompt := CreatePrompt(input, existingEpics);
      var llmResult := CallLlm(prompt, llm);
      if llmResult == [] {
        return None;
      }
      var structured := ParseLlmResponseToDf(llmResult);
      if structured == [] || |structured| != |input| {
        return None;
      }
      result := Some(seq(|structured|, i requires 0 <= i < |structured| => Finish(structured[i], input[i].canonicalBacklog)));
    }
  }

  /** Building a processor from the comma-separated key text, the ValueError for an empty text as a failure. */
  method NewBacklogProcessor(apiKeysString: string) returns (r: Result<BacklogProcessor, string>)
    ensures r.Failure? <==> apiKeysString == []
    ensures r.Failure? ==> r.error == MissingKeysMessage
    ensures r.Success? ==> fresh(r.value) && r.value.Valid() && r.value.apiKeys == ApiKeys(apiKeysString)
                           && r.value.currentKeyIndex == 0
  {
    if apiKeysString == [] {
      return Failure(MissingKeysMessage);
    }
    var p := new BacklogProcessor(apiKeysString);
    r := Success(p);
  }

  /** What `_call_llm` returns for a reply: its text stripped, or "" when the call failed. */
  function LlmResult(reply: Option<string>): string {
    match reply
    case None => []
    case Some(t) => Strip(t)
  }

  // ---------------------------------------------------------------------
  // _create_prompt: the list of known Epics
  // ---------------------------------------------------------------------

  function Quote(e: string): string {
    "\"" + e + "\""
  }

  /** Every known Epic in double quotes, the quoted names separated by a comma and a space. */
  function EpicListString(epics: seq<string>): string {
    Join(seq(|epics|, i requires 0 <= i < |epics| => Quote(epics[i])), ", ")
  }

  /** The parts of the prompt that vary; the instructions around them are fixed prose. */
  function CreatePrompt(input: seq<TaskRecord>, epics: seq<string>): Prompt {
    Prompt(EpicListString(epics), input)
  }

  /** The list of more than one Epic is the first one quoted, a comma, and the list of the rest. */
  lemma EpicListUnfold(epics: seq<string>)
    requires |epics| > 1
    ensures EpicListString(epics) == "\"" + (epics[0] + ("\"" + (", " + EpicListString(epics[1..]))))
  {
    var quoted := seq(|epics|, i requires 0 <= i < |epics| => Quote(epics[i]));
    assert quoted[1..] == seq(|epics| - 1, i requires 0 <= i < |epics| - 1 => Quote(epics[1..][i]));
  }

  /** `parts` holds the Epics at its odd positions, between an empty first and last piece. */
  predicate ReadsBack(parts: seq<string>, epics: seq<string>) {
    |parts| == 2 * |epics| + 1
    && parts[0] == [] && parts[|parts| - 1] == []
    && forall i :: 0 <= i < |epics| ==> parts[2 * i + 1] == epics[i]
  }

  /**
   * The list reads back: splitting it on '"' gives every Epic, in order, at the odd
   * positions, provided no Epic holds a '"' itself.
   */
  lemma {:induction false} EpicListReadsBack(epics: seq<string>)
    requires forall i :: 0 <= i < |epics| ==> '"' !in epics[i]
    ensures ReadsBack(Split(EpicListString(epics), '"'), epics)
  {
    if epics == [] {
    } else if |epics| == 1 {
      SplitQuotedSingle(epics[0]);
      assert EpicListString(epics) == "\"" + (epics[0] + "\"");
    } else {
      var rest := EpicListString(epics[1..]);
      EpicListReadsBack(epics[1..]);
      EpicListUnfold(epics);
      EpicListStartsWithQuote(epics[1..]);
      SplitQuotedHead(epics[0], rest);
      ReadsBackCons(Split(rest, '"'), epics);
    }
  }

  lemma ReadsBackCons(tail: seq<string>, epics: seq<string>)
    requires |epics| > 1 && ReadsBack(tail, epics[1..])
    ensures ReadsBack([[]] + ([epics[0]] + ([", "] + tail[1..])), epics)
  {
    var parts := [[]] + ([epics[0]] + ([", "] + tail[1..]));
    assert parts[|parts| - 1] == tail[|tail| - 1];
    forall i | 1 <= i < |epics|
      ensures parts[2 * i + 1] == epics[i]
    {
      assert parts[2 * i + 1] == tail[2 * (i - 1) + 1];
    }
  }

  /** Splitting one quoted Epic. */
  lemma SplitQuotedSingle(e: string)
    requires '"' !in e
    ensures Split("\"" + (e + "\""), '"') == [[]] + ([e] + [[]])
  {
    SplitAtSeparator(e, '"', []);
    assert e + ("\"" + []) == e + "\"";
    SplitAtSeparator([], '"', e + "\"");
    assert [] + ("\"" + (e + "\"")) == "\"" + (e + "\"");
  }

  /** Splitting a quoted Epic, the comma and a list that opens with a quote. */
  lemma SplitQuotedHead(e: string, rest: string)
    requires '"' !in e
    requires rest != [] && rest[0] == '"'
    ensures Split("\"" + (e + ("\"" + (", " + rest))), '"') == [[]] + ([e] + ([", "] + Split(rest, '"')[1..]))
  {
    var x := rest[1..];
    var t := Split(x, '"');
    SplitAtSeparator([], '"', x);
    assert [] + ("\"" + x) == rest;
    assert Split(rest, '"') == [[]] + t;
    SplitAtSeparator(", ", '"', x);
    assert ", " + ("\"" + x) == ", " + rest;
    assert Split(", " + rest, '"') == [", "] + t;
    var mid := e + ("\"" + (", " + rest));
    SplitAtSeparator(e, '"', ", " + rest);
    assert Split(mid, '"') == [e] + ([", "] + t);
    SplitAtSeparator([], '"', mid);
    assert [] + ("\"" + mid) == "\"" + mid;
    assert Split("\"" + mid, '"') == [[]] + ([e] + ([", "] + t));
  }

  lemma EpicListStartsWithQuote(epics: seq<string>)
    requires epics != []
    ensures EpicListString(epics) != [] && EpicListString(epics)[0] == '"'
  {
    if |epics| > 1 {
      EpicListUnfold(epics);
    }
  }

  // ---------------------------------------------------------------------
  // _parse_llm_response_to_df
  // ---------------------------------------------------------------------

  /** Every run of three backticks, together with a `csv` tag right after it, removed scanning left to right. */
  function RemoveFences(s: string): (r: string)
    ensures |r| <= |s|
    decreases |s|
  {
    if StartsWith(s, "```csv") then RemoveFences(s[6..])
    else if StartsWith(s, "```") then RemoveFences(s[3..])
    else if s == [] then []
    else [s[0]] + RemoveFences(s[1..])
  }

  /** A reply without a backtick has no fence to remove. */
  lemma {:induction false} RemoveFencesPlain(s: string)
    requires '`' !in s
    ensures RemoveFences(s) == s
  {
    if s != [] {
      assert s[0] != '`';
      RemoveFencesPlain(s[1..]);
    }
  }

  /** Removing fences keeps every character that no fence is made of, so it keeps each `|`. */
  lemma {:induction false} RemoveFencesCount(s: string, c: char)
    requires c !in "```csv"
    ensures Count(RemoveFences(s), c) == Count(s, c)
    decreases |s|
  {
    if StartsWith(s, "```csv") {
      RemoveFencesCount(s[6..], c);
      SplitAt(s, 6);
      CountAppend(s[..6], s[6..], c);
    } else if StartsWith(s, "```") {
      RemoveFencesCount(s[3..], c);
      SplitAt(s, 3);
      CountAppend(s[..3], s[3..], c);
    } else if s != [] {
      RemoveFencesCount(s[1..], c);
      CountAppend([s[0]], RemoveFences(s[1..]), c);
    }
  }

  /** Text before the first backtick is kept as it is; removal goes on after it. */
  lemma {:induction false} RemoveFencesPrefix(a: string, b: string)
    requires '`' !in a
    ensures RemoveFences(a + b) == a + RemoveFences(b)
  {
    if a != [] {
      assert (a + b)[0] == a[0] != '`';
      if |a + b| >= 3 {
        assert (a + b)[..3][0] == a[0] != "```"[0];
      }
      if |a + b| >= 6 {
        assert (a + b)[..6][0] == a[0] != "```csv"[0];
      }
      assert !StartsWith(a + b, "```csv") && !StartsWith(a + b, "```");
      assert (a + b)[1..] == a[1..] + b;
      assert '`' !in a[1..];
      RemoveFencesPrefix(a[1..], b);
      assert a == [a[0]] + a[1..];
    } else {
      assert a + b == b;
    }
  }

  /** The reply as the model is asked to fence it: an opening "```csv" line and a closing "```". */
  function Fenced(text: string): string {
    "```csv\n" + text + "\n```"
  }

  /** Both fences go and the line breaks beside them stay. */
  lemma RemoveFencesFenced(text: string)
    requires '`' !in text
    ensures RemoveFences(Fenced(text)) == "\n" + text + "\n"
  {
    var inner := "\n" + text + "\n";
    assert Fenced(text) == "```csv" + (inner + "```");
    assert StartsWith(Fenced(text), "```csv");
    assert Fenced(text)[6..] == inner + "```";
    RemoveFencesPrefix(inner, "```");
    assert StartsWith("```", "```");
    assert RemoveFences("```") == [];
  }

  /** A fenced reply around a stripped text without backticks has that text's lines. */
  lemma FencedSameLines(text: string)
    requires '`' !in text && IsStripped(text)
    ensures ResponseLines(Fenced(text)) == ResponseLines(text)
  {
    RemoveFencesFenced(text);
    RemoveFencesPlain(text);
    StripPadded("\n", text, "\n");
    StrippedIsFixpoint(text);
  }

  /** The six columns of the header the prompt asks for, in order. */
  const ExpectedColumns: seq<string> := ["Epic", "Backlog", "PIC", "Status", "Start Date", "End Date"]

  /** A data line has one separator fewer than there are columns. */
  const NumSeparators := |ExpectedColumns| - 1

  /** The lines with exactly five separators, in order, each stripped. */
  function DataLines(lines: seq<string>): (r: seq<string>)
    ensures |r| <= |lines|
    ensures forall i :: 0 <= i < |r| ==> Count(r[i], '|') == NumSeparators
  {
    if lines == [] then []
    else
      var rest := DataLines(lines[1..]);
      if Count(lines[0], '|') == NumSeparators then
        StripCount(lines[0], '|');
        [Strip(lines[0])] + rest
      else rest
  }

  /** Lines that all have five separators and no surrounding whitespace are all kept, as they are. */
  lemma {:induction false} DataLinesKeepsClean(lines: seq<string>)
    requires forall i :: 0 <= i < |lines| ==> Count(lines[i], '|') == NumSeparators && IsStripped(lines[i])
    ensures DataLines(lines) == lines
  {
    if lines != [] {
      DataLinesKeepsClean(lines[1..]);
      StrippedIsFixpoint(lines[0]);
    }
  }

  /** A line without exactly five separators is dropped. */
  lemma {:induction false} DataLinesDropsOthers(lines: seq<string>)
    requires forall i :: 0 <= i < |lines| ==> Count(lines[i], '|') != NumSeparators
    ensures DataLines(lines) == []
  {
    if lines != [] {
      DataLinesDropsOthers(lines[1..]);
    }
  }

  /** One row of the table read from the reply, in the order of the expected columns. */
  datatype LlmRow = LlmRow(epic: string, backlog: string, pic: string, status: string, startDate: string, endDate: string)
  {
    function Cells(): seq<string> {
      [epic, backlog, pic, status, startDate, endDate]
    }
  }

  function RowOf(cells: seq<string>): LlmRow
    requires |cells| == 6
  {
    LlmRow(cells[0], cells[1], cells[2], cells[3], cells[4], cells[5])
  }

  /** The reply's lines: fences removed, then stripped and split on '\n'. */
  function ResponseLines(resp: string): seq<string> {
    Split(Strip(RemoveFences(resp)), '\n')
  }

  /** The cells of one data line as `read_csv` splits them on '|'. */
  function ReadCells(line: string): seq<string> {
    Split(line, '|')
  }

  /** One data line read into a row: split on '|', every cell stripped. */
  function RowFromLine(line: string): LlmRow
    requires Count(line, '|') == NumSeparators
  {
    var cells := ReadCells(line);
    RowOf(seq(6, c requires 0 <= c < 6 => Strip(cells[c])))
  }

  /** What `_parse_llm_response_to_df` returns, an empty table being the empty sequence. */
  function ParseLlmResponse(resp: string): seq<LlmRow> {
    if resp == [] then []
    else
      var data := DataLines(ResponseLines(resp));
      seq(|data|, i requires 0 <= i < |data| => RowFromLine(data[i]))
  }

  /** `_parse_llm_response_to_df`: filter the data lines, read them, then strip the cells column by column. */
  method ParseLlmResponseToDf(resp: string) returns (rows: seq<LlmRow>)
    ensures rows == ParseLlmResponse(resp)
  {
    if resp == [] {
      return [];
    }
    var cleaned := RemoveFences(resp);
    var lines := Split(Strip(cleaned), '\n');
    var dataLines := DataLines(lines);
    if dataLines == [] {
      return [];
    }
    var table := seq(|dataLines|, i requires 0 <= i < |dataLines| => ReadCells(dataLines[i]));
    for col := 0 to |ExpectedColumns|
      invariant |table| == |dataLines|
      invariant forall i :: 0 <= i < |table| ==> |table[i]| == 6
      invariant forall i, c :: 0 <= i < |table| && 0 <= c < 6 ==>
                  table[i][c] == if c < col then Strip(ReadCells(dataLines[i])[c]) else ReadCells(dataLines[i])[c]
    {
      table := seq(|table|, i requires 0 <= i < |table| => table[i][col := Strip(table[i][col])]);
    }
    rows := seq(|table|, i requires 0 <= i < |table| => RowOf(table[i]));
  }

  /** A row written back as the model is asked to write it. */
  function Render(r: LlmRow): string {
    Join(r.Cells(), "|")
  }

  /** A cell that survives the round trip: no separator, no line break, no backtick, no surrounding whitespace. */
  predicate CleanCell(c: string) {
    IsStripped(c) && '|' !in c && '\n' !in c && '`' !in c
  }

  predicate CleanRow(r: LlmRow) {
    CleanCell(r.epic) && CleanCell(r.backlog) && CleanCell(r.pic) && CleanCell(r.status)
    && CleanCell(r.startDate) && CleanCell(r.endDate)
  }

  /** The rows written out one per line. */
  function RenderAll(rows: seq<LlmRow>): string {
    Join(RenderedLines(rows), "\n")
  }

  /** A rendered clean row is one stripped data line that reads back as its own cells. */
  lemma RenderLine(r: LlmRow)
    requires CleanRow(r)
    ensures ReadCells(Render(r)) == r.Cells()
    ensures Count(Render(r), '|') == NumSeparators
    ensures Render(r) != [] && IsStripped(Render(r))
    ensures '\n' !in Render(r) && '`' !in Render(r)
  {
    RenderCells(r);
    RenderShape(r);
  }

  lemma RenderCells(r: LlmRow)
    requires CleanRow(r)
    ensures ReadCells(Render(r)) == r.Cells()
    ensures Count(Render(r), '|') == NumSeparators
  {
    var cells := r.Cells();
    assert forall i :: 0 <= i < 6 ==> '|' !in cells[i];
    SplitJoin(cells, '|');
  }

  lemma RenderShape(r: LlmRow)
    requires CleanRow(r)
    ensures IsStripped(Render(r))
    ensures '\n' !in Render(r) && '`' !in Render(r)
  {
    var cells := r.Cells();
    assert forall i :: 0 <= i < 6 ==> CleanCell(cells[i]);
    JoinStrippedSeparator(cells, "|");
    JoinFree(cells, "|", '\n');
    JoinFree(cells, "|", '`');
  }

  /** A clean row, rendered, reads back as itself. */
  lemma RowFromRender(r: LlmRow)
    requires CleanRow(r)
    ensures Count(Render(r), '|') == NumSeparators && RowFromLine(Render(r)) == r
  {
    RenderLine(r);
    var cells := r.Cells();
    assert forall c :: 0 <= c < 6 ==> CleanCell(cells[c]);
    forall c | 0 <= c < 6
      ensures Strip(cells[c]) == cells[c]
    {
      StrippedIsFixpoint(cells[c]);
    }
    assert seq(6, c requires 0 <= c < 6 => Strip(cells[c])) == cells;
  }

  /** The rendered rows, one per line. */
  function RenderedLines(rows: seq<LlmRow>): seq<string> {
    seq(|rows|, i requires 0 <= i < |rows| => Render(rows[i]))
  }

  /** The rendered text of clean rows is stripped, and its data lines are the rendered rows. */
  lemma RenderAllLines(rows: seq<LlmRow>)
    requires rows != []
    requires forall i :: 0 <= i < |rows| ==> CleanRow(rows[i])
    ensures IsStripped(RenderAll(rows)) && RenderAll(rows) != [] && '`' !in RenderAll(rows)
    ensures DataLines(ResponseLines(RenderAll(rows))) == RenderedLines(rows)
  {
    var lines := RenderedLines(rows);
    forall i | 0 <= i < |rows|
      ensures Count(lines[i], '|') == NumSeparators
      ensures lines[i] != [] && IsStripped(lines[i]) && '\n' !in lines[i] && '`' !in lines[i]
    {
      RenderLine(rows[i]);
    }
    var text := RenderAll(rows);
    JoinFree(lines, "\n", '`');
    RemoveFencesPlain(text);
    JoinStrippedPieces(lines, "\n");
    StrippedIsFixpoint(text);
    SplitJoin(lines, '\n');
    DataLinesKeepsClean(lines);
  }

  /** Clean rows, rendered one per line, parse back to exactly the same rows. */
  lemma ParseRendered(rows: seq<LlmRow>)
    requires rows != []
    requires forall i :: 0 <= i < |rows| ==> CleanRow(rows[i])
    ensures ParseLlmResponse(RenderAll(rows)) == rows
  {
    RenderAllLines(rows);
    var lines := RenderedLines(rows);
    var parsed := ParseLlmResponse(RenderAll(rows));
    forall i | 0 <= i < |rows|
      ensures parsed[i] == rows[i]
    {
      RowFromRender(rows[i]);
    }
  }

  /** Two non-empty replies with the same lines parse to the same rows. */
  lemma ParseSameLines(r1: string, r2: string)
    requires r1 != [] && r2 != [] && ResponseLines(r1) == ResponseLines(r2)
    ensures ParseLlmResponse(r1) == ParseLlmResponse(r2)
  {
  }

  /** The same rows inside the fences the prompt asks for parse back the same. */
  lemma ParseFencedRendered(rows: seq<LlmRow>)
    requires rows != []
    requires forall i :: 0 <= i < |rows| ==> CleanRow(rows[i])
    ensures ParseLlmResponse(Fenced(RenderAll(rows))) == rows
  {
    var text := RenderAll(rows);
    RenderAllLines(rows);
    calc {
      ParseLlmResponse(Fenced(text));
      { FencedSameLines(text); ParseSameLines(Fenced(text), text); }
      ParseLlmResponse(text);
      { ParseRendered(rows); }
      rows;
    }
  }

  // ---------------------------------------------------------------------
  // get_epics_for_new_tasks
  // ---------------------------------------------------------------------

  /** A backlog row: the model's columns, the dates converted, and the canonical text put back. */
  datatype BacklogRow = BacklogRow(
    epic: string, backlog: string, pic: string, status: string,
    startDate: Option<string>, endDate: Option<string>, canonicalBacklog: string)

  /** The canonical text copied from the task in the same position, and both dates converted. */
  function Finish(r: LlmRow, canonicalBacklog: string): BacklogRow {
    BacklogRow(r.epic, r.backlog, r.pic, r.status,
               MixedLanguageDate(Str(r.startDate)), MixedLanguageDate(Str(r.endDate)), canonicalBacklog)
  }

  /** What `get_epics_for_new_tasks` returns for the model's reply. */
  function EpicsFor(input: seq<TaskRecord>, reply: Option<string>): Option<seq<BacklogRow>> {
    var llmResult := LlmResult(reply);
    if llmResult == [] then None
    else
      var rows := ParseLlmResponse(llmResult);
      if rows == [] || |rows| != |input| then None
      else Some(seq(|rows|, i requires 0 <= i < |rows| => Finish(rows[i], input[i].canonicalBacklog)))
  }

  /** A result has one row per task, each carrying that task's canonical text. */
  lemma EpicsForKeepsTasks(input: seq<TaskRecord>, reply: Option<string>)
    requires EpicsFor(input, reply).Some?
    ensures var out := EpicsFor(input, reply).value;
            |out| == |input| > 0 && forall i :: 0 <= i < |out| ==> out[i].canonicalBacklog == input[i].canonicalBacklog
  {
  }

  /** A failed call gives no result. */
  lemma EpicsForFailedCall(input: seq<TaskRecord>)
    ensures EpicsFor(input, None).None?
  {
  }

  /** A clean reply with one row per task is taken whole: its Epics, in order, beside the tasks' canonical texts. */
  lemma EpicsForCleanReply(input: seq<TaskRecord>, rows: seq<LlmRow>)
    requires |rows| == |input| > 0
    requires forall i :: 0 <= i < |rows| ==> CleanRow(rows[i])
    ensures EpicsFor(input, Some(RenderAll(rows)))
            == Some(seq(|rows|, i requires 0 <= i < |rows| => Finish(rows[i], input[i].canonicalBacklog)))
  {
    ParseRendered(rows);
    RenderAllLines(rows);
    StrippedIsFixpoint(RenderAll(rows));
  }

  /** The same holds when the reply comes fenced as a csv block. */
  lemma EpicsForFencedReply(input: seq<TaskRecord>, rows: seq<LlmRow>)
    requires |rows| == |input| > 0
    requires forall i :: 0 <= i < |rows| ==> CleanRow(rows[i])
    ensures EpicsFor(input, Some(Fenced(RenderAll(rows))))
            == Some(seq(|rows|, i requires 0 <= i < |rows| => Finish(rows[i], input[i].canonicalBacklog)))
  {
    var reply := Fenced(RenderAll(rows));
    assert reply[0] == '`' && reply[|reply| - 1] == '`';
    StrippedIsFixpoint(reply);
    ParseFencedRendered(rows);
  }

  /** A clean reply with a different number of rows than tasks is refused. */
  lemma EpicsForCountMismatch(input: seq<TaskRecord>, rows: seq<LlmRow>)
    requires rows != [] && |rows| != |input|
    requires forall i :: 0 <= i < |rows| ==> CleanRow(rows[i])
    ensures EpicsFor(input, Some(RenderAll(rows))).None?
  {
    ParseRendered(rows);
    RenderAllLines(rows);
    StrippedIsFixpoint(RenderAll(rows));
  }
}
