/** The Indonesian month names and their English equivalents, shared by both converters. */
module Months {
  import opened Wrappers

  /** The table in the order the converters list it; the order matters to `replace` chains. */
  const Table: seq<(string, string)> := [
    ("januari", "January"), ("februari", "February"), ("maret", "March"),
    ("april", "April"), ("mei", "May"), ("juni", "June"),
    ("juli", "July"), ("agustus", "August"), ("september", "September"),
    ("oktober", "October"), ("november", "November"), ("desember", "December")
  ]

  /**
   * The text paired with `name` in a table of pairs, taken from the first
   * pair with that name, or None when the name is absent.
   */
  function LookupIn(table: seq<(string, string)>, name: string): (r: Option<string>)
    ensures r.Some? ==> exists i :: 0 <= i < |table| && table[i] == (name, r.value)
                                    && forall j :: 0 <= j < i ==> table[j].0 != name
    ensures r.None? ==> forall i :: 0 <= i < |table| ==> table[i].0 != name
  {
    if table == [] then None
    else if table[0].0 == name then Some(table[0].1)
    else
      var r := LookupIn(table[1..], name);
      if r.Some? then
        var i :| 0 <= i < |table[1..]| && table[1..][i] == (name, r.value)
                 && forall j :: 0 <= j < i ==> table[1..][j].0 != name;
        assert table[i + 1] == (name, r.value);
        assert forall j :: 0 <= j < i + 1 ==> table[j].0 != name by {
          forall j | 0 <= j < i + 1 ensures table[j].0 != name {
            if j > 0 { assert table[j] == table[1..][j - 1]; }
          }
        }
        r
      else r
  }

  /** In a table whose names are all different, each name looks up its own pair. */
  lemma LookupDistinct(table: seq<(string, string)>, i: nat)
    requires i < |table|
    requires forall j, k :: 0 <= j < k < |table| ==> table[j].0 != table[k].0
    ensures LookupIn(table, table[i].0) == Some(table[i].1)
  {
    var r := LookupIn(table, table[i].0);
    assert r.Some?;
    var k :| 0 <= k < |table| && table[k] == (table[i].0, r.value)
             && forall j :: 0 <= j < k ==> table[j].0 != table[i].0;
    assert k == i;
  }

  /** No Indonesian month name appears twice, so the table reads as the converters' dictionary. */
  lemma TableNamesDistinct()
    ensures forall j, k :: 0 <= j < k < |Table| ==> Table[j].0 != Table[k].0
  {
    forall j, k | 0 <= j < k < |Table|
      ensures Table[j].0 != Table[k].0
    {
      assert j == 0 || j == 1 || j == 2 || j == 3 || j == 4 || j == 5 || j == 6 || j == 7 || j == 8 || j == 9 || j == 10;
      assert k == 1 || k == 2 || k == 3 || k == 4 || k == 5 || k == 6 || k == 7 || k == 8 || k == 9 || k == 10 || k == 11;
      assert Table[j].0[0] != Table[k].0[0] || Table[j].0[1] != Table[k].0[1] || Table[j].0[2] != Table[k].0[2];
    }
  }

  /** Each English name is one capital letter followed by lower-case letters. */
  lemma EnglishNamesTitled(i: nat)
    requires i < |Table|
    ensures Table[i].1 != [] && 'A' <= Table[i].1[0] <= 'Z'
    ensures forall c :: 1 <= c < |Table[i].1| ==> 'a' <= Table[i].1[c] <= 'z'
  {
    assert i == 0 || i == 1 || i == 2 || i == 3 || i == 4 || i == 5 || i == 6 || i == 7 || i == 8 || i == 9 || i == 10 || i == 11;
    forall c | 1 <= c < |Table[i].1|
      ensures 'a' <= Table[i].1[c] <= 'z'
    {
      assert c == 1 || c == 2 || c == 3 || c == 4 || c == 5 || c == 6 || c == 7 || c == 8;
    }
  }

  function Lookup(name: string): Option<string> {
    LookupIn(Table, name)
  }
}
