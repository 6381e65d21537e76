/**
 The cause-of-death table and `get_causes`, which lists the causes from the
 largest count down but pins "All Other Causes" to the end by giving it the
 sort key 0, although its count is the largest of all.
 */
module Death {
  import opened Wrappers
  import Sorting

  datatype Cause = Cause(name: string, count: nat)

  const AllOtherCauses: string := "All Other Causes"

  /** `causes_of_death`, in the order the dictionary is written. */
  const CausesOfDeath: seq<Cause> := [
    Cause("Heart Disease", 647457),
    Cause("Cancer", 599108),
    Cause("Accidents", 169936),
    Cause("CLRD", 160201),
    Cause("Stroke", 146383),
    Cause("Alzheimer", 121404),
    Cause("Diabetes", 83564),
    Cause("Flu&Pneumonia", 55672),
    Cause("Kidney Disease", 50633),
    Cause("Suicide", 47173),
    Cause(AllOtherCauses, 731972)
  ]

  /** `causes_of_death[name]`; `None` where the dictionary raises `KeyError`. */
  function Count(table: seq<Cause>, name: string): (r: Option<nat>)
    ensures r.Some? <==> exists i :: 0 <= i < |table| && table[i].name == name
    ensures r.Some? ==> exists i :: 0 <= i < |table| && table[i] == Cause(name, r.value)
  {
    if |table| == 0 then None
    else if table[0].name == name then Some(table[0].count)
    else
      var r := Count(table[1..], name);
      assert forall i :: 0 <= i < |table| - 1 ==> table[1..][i] == table[i + 1];
      r
  }

  /** `s(name)`: 0 for "All Other Causes", the table's count for any other cause. */
  function SortKey(name: string): (k: Option<nat>)
    ensures name == AllOtherCauses ==> k == Some(0)
    ensures name != AllOtherCauses ==> k == Count(CausesOfDeath, name)
  {
    if name == AllOtherCauses then Some(0) else Count(CausesOfDeath, name)
  }

  /** The sort key of a table row: what `s` gives its name. */
  function RowKey(c: Cause): nat {
    if c.name == AllOtherCauses then 0 else c.count
  }

  /** For every row of the table, `s` of its name is that row's key. */
  lemma RowKeyIsSortKey(i: nat)
    requires i < |CausesOfDeath|
    ensures SortKey(CausesOfDeath[i].name) == Some(RowKey(CausesOfDeath[i]))
  {
    if CausesOfDeath[i].name != AllOtherCauses {
      NamesDistinct();
      CountFindsRow(CausesOfDeath, i);
    }
  }

  /** A lookup finds a row's count when no earlier row has the same name. */
  lemma {:induction false} CountFindsRow(table: seq<Cause>, i: nat)
    requires i < |table|
    requires forall j :: 0 <= j < i ==> table[j].name != table[i].name
    ensures Count(table, table[i].name) == Some(table[i].count)
    decreases i
  {
    if i > 0 {
      var tail := table[1..];
      assert tail[i - 1] == table[i];
      forall j | 0 <= j < i - 1
        ensures tail[j].name != tail[i - 1].name
      {
        assert tail[j] == table[j + 1];
      }
      CountFindsRow(tail, i - 1);
    }
  }

  /** No cause appears twice in the table. */
  lemma NamesDistinct()
    ensures forall i, j :: 0 <= i < j < |CausesOfDeath| ==> CausesOfDeath[i].name != CausesOfDeath[j].name
  {
    var c := CausesOfDeath;
    forall i, j | 0 <= i < j < |c|
      ensures c[i].name != c[j].name
    {
      if |c[i].name| == |c[j].name| {
        assert c[i].name[0] != c[j].name[0] || c[i].name[1] != c[j].name[1];
      }
    }
  }


  /** The order `sorted` compares the keys `s` gives: `<=` on counts. */
  predicate NatLe(a: nat, b: nat) {
    a <= b
  }

  lemma NatLeTotalOrder()
    ensures Sorting.TotalOrder(NatLe)
  {
  }

  /**
   "All Other Causes" has the least key of the table although its count is
   the largest, which is what pins it to the end of the reversed order.
   */
  lemma AllOtherCausesKeyIsLeast(i: nat)
    requires i < |CausesOfDeath| && CausesOfDeath[i].name != AllOtherCauses
    ensures SortKey(AllOtherCauses).value < SortKey(CausesOfDeath[i].name).value
    ensures CausesOfDeath[10] == Cause(AllOtherCauses, 731972) && CausesOfDeath[10].count > CausesOfDeath[i].count
  {
    RowKeyIsSortKey(i);
  }


  /** `xs[::-1]`. */
  function Reverse<T>(s: seq<T>): (r: seq<T>)
    ensures |r| == |s|
    ensures forall i :: 0 <= i < |s| ==> r[i] == s[|s| - 1 - i]
    ensures multiset(r) == multiset(s)
  {
    if |s| == 0 then []
    else
      var r := Reverse(s[1..]) + [s[0]];
      assert s == [s[0]] + s[1..];
      r
  }


  /** The table in ascending key order, "All Other Causes" (key 0) first. */
  const AscendingTable: seq<Cause> := [
    Cause(AllOtherCauses, 731972),
    Cause("Suicide", 47173),
    Cause("Kidney Disease", 50633),
    Cause("Flu&Pneumonia", 55672),
    Cause("Diabetes", 83564),
    Cause("Alzheimer", 121404),
    Cause("Stroke", 146383),
    Cause("CLRD", 160201),
    Cause("Accidents", 169936),
    Cause("Cancer", 599108),
    Cause("Heart Disease", 647457)
  ]

  /** Strictly increasing neighbours make the whole sequence strictly increasing. */
  lemma {:induction false} AdjacentAscending(t: seq<Cause>)
    requires forall i :: 0 <= i < |t| - 1 ==> RowKey(t[i]) < RowKey(t[i + 1])
    ensures forall i, j :: 0 <= i < j < |t| ==> RowKey(t[i]) < RowKey(t[j])
    decreases |t|
  {
    if |t| > 1 {
      AdjacentAscending(t[1..]);
      forall i, j | 0 <= i < j < |t|
        ensures RowKey(t[i]) < RowKey(t[j])
      {
        if i > 0 {
          assert t[1..][i - 1] == t[i] && t[1..][j - 1] == t[j];
        } else if j > 1 {
          assert t[1..][j - 1] == t[j];
          assert RowKey(t[1..][0]) < RowKey(t[1..][j - 1]);
        }
      }
    }
  }

  /** Only the first row of the ascending table is "All Other Causes"; every other row's key is its count. */
  lemma AscendingTableKeys()
    ensures RowKey(AscendingTable[0]) == 0
    ensures forall i :: 1 <= i < |AscendingTable| ==> RowKey(AscendingTable[i]) == AscendingTable[i].count
  {
    var t := AscendingTable;
    forall i | 1 <= i < |t|
      ensures t[i].name != AllOtherCauses
    {
      assert |t[i].name| != |AllOtherCauses|;
    }
  }

  lemma AscendingTableStrict()
    ensures forall i, j :: 0 <= i < j < |AscendingTable| ==> RowKey(AscendingTable[i]) < RowKey(AscendingTable[j])
  {
    var t := AscendingTable;
    AscendingTableKeys();
    assert forall i :: 0 <= i < |t| - 1 ==> RowKey(t[i]) < RowKey(t[i + 1]);
    AdjacentAscending(t);
  }

  /** The table as written is the ascending table read backwards. */
  lemma TableIsReversed()
    ensures |CausesOfDeath| == |AscendingTable| == 11
    ensures forall i :: 0 <= i < 11 ==> CausesOfDeath[i] == AscendingTable[10 - i]
  {
  }

  /** Sorting any permutation of a strictly ascending table gives that table. */
  lemma SortFindsSorted(d: seq<Cause>, t: seq<Cause>)
    requires multiset(d) == multiset(t)
    requires forall i, j :: 0 <= i < j < |t| ==> RowKey(t[i]) < RowKey(t[j])
    ensures Sorting.SortBy(d, RowKey, NatLe) == t
  {
    StrictlyAscending(t);
    NatLeTotalOrder();
    Sorting.SortedPermutationUnique(t, Sorting.SortBy(d, RowKey, NatLe), RowKey, NatLe);
  }

  /** Strictly ascending keys: sorted, and no two different rows share a key. */
  lemma StrictlyAscending(t: seq<Cause>)
    requires forall i, j :: 0 <= i < j < |t| ==> RowKey(t[i]) < RowKey(t[j])
    ensures Sorting.SortedBy(t, RowKey, NatLe)
    ensures forall i, j :: 0 <= i < |t| && 0 <= j < |t| && RowKey(t[i]) == RowKey(t[j]) ==> t[i] == t[j]
  {
    forall i, j | 0 <= i < |t| && 0 <= j < |t| && i != j
      ensures RowKey(t[i]) != RowKey(t[j])
    {
      if i < j {
        assert RowKey(t[i]) < RowKey(t[j]);
      } else {
        assert RowKey(t[j]) < RowKey(t[i]);
      }
    }
  }

  /**
   In the table as written, the first ten counts strictly decrease: their
   rows are the ascending table read backwards, and their keys are their
   counts.
   */
  lemma TableCountsDescend()
    ensures forall i, j :: 0 <= i < j < 10 ==> CausesOfDeath[i].count > CausesOfDeath[j].count
  {
    AscendingTableStrict();
    AscendingTableKeys();
    TableIsReversed();
    forall i, j | 0 <= i < j < 10
      ensures CausesOfDeath[i].count > CausesOfDeath[j].count
    {
      assert RowKey(AscendingTable[10 - j]) < RowKey(AscendingTable[10 - i]);
    }
  }

  /**
   The layout `get_causes` returns: 11 rows, "All Other Causes" last with
   the largest count, 731972, and the other ten from the largest count
   down, "Heart Disease" first and "Suicide" tenth.
   */
  predicate Layout(r: seq<Cause>) {
    && |r| == 11
    && (forall i, j :: 0 <= i < j < 10 ==> r[i].count > r[j].count)
    && r[10] == Cause(AllOtherCauses, 731972)
    && (forall i :: 0 <= i < 10 ==> r[i].name != AllOtherCauses && r[i].count < r[10].count)
    && r[0].name == "Heart Disease" && r[9].name == "Suicide"
  }

  /** The table as written has that layout. */
  lemma TableLayout()
    ensures Layout(CausesOfDeath)
  {
    TableCountsDescend();
    var c := CausesOfDeath;
    forall i | 0 <= i < 10
      ensures c[i].name != AllOtherCauses
    {
      assert |c[i].name| != |AllOtherCauses|;
    }
  }

  /**
   `sorted(table, key=s)[::-1]`, each name paired with its count: every row
   exactly once, from the largest key down.
   */
  function SortCauses(table: seq<Cause>): (r: seq<Cause>)
    ensures multiset(r) == multiset(table)
    ensures forall i, j :: 0 <= i < j < |r| ==> RowKey(r[i]) >= RowKey(r[j])
  {
    NatLeTotalOrder();
    Reverse(Sorting.SortBy(table, RowKey, NatLe))
  }

  /**
   A table whose rows, read backwards, are strictly ascending in key comes
   out of the sort in its own order; the tables are parameters so that the
   proof reasons about positions rather than unfolding the literal tables.
   */
  lemma SortCausesKeepsDescendingTable(c: seq<Cause>, t: seq<Cause>)
    requires |c| == |t|
    requires forall i :: 0 <= i < |c| ==> c[i] == t[|t| - 1 - i]
    requires forall i, j :: 0 <= i < j < |t| ==> RowKey(t[i]) < RowKey(t[j])
    ensures SortCauses(c) == c
  {
    ReverseOf(c, t);
    SortFindsSorted(c, t);
  }

  /** The table as written comes out of `sorted(..., key=s)[::-1]` unchanged. */
  lemma SortKeepsTable()
    ensures SortCauses(CausesOfDeath) == CausesOfDeath
  {
    AscendingTableStrict();
    TableIsReversed();
    SortCausesKeepsDescendingTable(CausesOfDeath, AscendingTable);
  }

  lemma ReverseOf<T>(c: seq<T>, t: seq<T>)
    requires |c| == |t|
    requires forall i :: 0 <= i < |c| ==> c[i] == t[|t| - 1 - i]
    ensures c == Reverse(t)
  {
  }

  /**
   `get_causes()`: every row of the table exactly once, with the table's
   own counts; the causes other than "All Other Causes" from the largest
   count down, so "Heart Disease" first and "Suicide" tenth; and "All Other
   Causes" last, with its count of 731972, the largest in the table. The
   result happens to be the table in the order it is written.
   */
  function GetCauses(): (r: seq<Cause>)
    ensures r == CausesOfDeath
    ensures Layout(r)
  {
    SortKeepsTable();
    TableLayout();
    SortCauses(CausesOfDeath)
  }
}
