/**
 The join and key reconciliation of `merge_csv_files`. The centres table is
 turned into a dict on its FIPS column; each cancer-risk row whose FIPS code
 the dict holds is extended by that dict value, and every other row is
 reported. Then every dict key that no cancer-risk row carries is reported, in
 dict order. The two reports, printed by the source, are returned here.
 */
module CsvMerge {
  import opened Rows
  import opened Lists
  import opened Dicts
  import opened DictBuilder

  /** The FIPS column of the cancer-risk table. */
  const CancerFipsCol: int := 2
  /** The FIPS column of the county-centres table. */
  const CenterFipsCol: int := 0

  /** A cancer-risk row's FIPS code, `idx[2]`. */
  function Fips<T>(row: Row<T>): T
    requires InRange(row, CancerFipsCol)
  {
    Cell(row, CancerFipsCol)
  }

  /** The joined table of the first pass: matched rows extended by their centre entry. */
  function Joined<T(==)>(cancer: Table<T>, centers: Dict<T, seq<T>>): (joined: seq<Row<T>>)
    requires Indexable(cancer, CancerFipsCol)
    decreases |cancer|
  {
    if cancer == [] then []
    else
      var n := |cancer| - 1;
      var rest := Joined(cancer[..n], centers);
      if Fips(cancer[n]) in centers.entries then rest + [cancer[n] + centers.entries[Fips(cancer[n])]]
      else rest
  }

  /** The rows the first pass reports as "not present in USA map". */
  function Unmatched<T(==)>(cancer: Table<T>, centers: Dict<T, seq<T>>): (unmatched: seq<Row<T>>)
    requires Indexable(cancer, CancerFipsCol)
    decreases |cancer|
  {
    if cancer == [] then []
    else
      var n := |cancer| - 1;
      var rest := Unmatched(cancer[..n], centers);
      if Fips(cancer[n]) in centers.entries then rest else rest + [cancer[n]]
  }

  /** The codes the second pass reports as "not in cancer risk table", in key order. */
  function Orphans<T(==)>(keys: seq<T>, codes: seq<T>): (orphans: seq<T>)
    decreases |keys|
  {
    if keys == [] then []
    else
      var n := |keys| - 1;
      var rest := Orphans(keys[..n], codes);
      if keys[n] !in codes then rest + [keys[n]] else rest
  }

  /** What merge_csv_files produces: the joined table and its two warnings. */
  datatype Report<T> = Report(joined: seq<Row<T>>, unmatchedRows: seq<Row<T>>, unmatchedCodes: seq<T>)

  /** merge_csv_files with its reads, its write and its prints replaced by values. */
  function Merge<T(==)>(cancer: Table<T>, centers: Table<T>): (r: Report<T>)
    requires Indexable(cancer, CancerFipsCol) && Indexable(centers, CenterFipsCol)
  {
    var d := MakeDict(centers, CenterFipsCol);
    Report(Joined(cancer, d), Unmatched(cancer, d), Orphans(d.keys, Column(cancer, CancerFipsCol)))
  }

  /** The first pass: `for idx in cancer_table`, appending to the joined table or reporting. */
  method JoinRows<T(==)>(cancer: Table<T>, centers: Dict<T, seq<T>>)
    returns (joined: seq<Row<T>>, unmatched: seq<Row<T>>)
    requires Indexable(cancer, CancerFipsCol)
    ensures joined == Joined(cancer, centers) && unmatched == Unmatched(cancer, centers)
  {
    joined, unmatched := [], [];
    for n := 0 to |cancer|
      invariant joined == Joined(cancer[..n], centers)
      invariant unmatched == Unmatched(cancer[..n], centers)
    {
      var idx := cancer[n];
      var fips := Cell(idx, CancerFipsCol);
      if fips in centers.entries {
        joined := joined + [idx + centers.entries[fips]];
      } else {
        unmatched := unmatched + [idx];
      }
      assert cancer[..n + 1][..n] == cancer[..n];
    }
    assert cancer[..|cancer|] == cancer;
  }

  /** The second pass: `for center_code in centers_dict`, reporting codes absent from `codes`. */
  method ReportOrphans<T(==)>(centers: Dict<T, seq<T>>, codes: seq<T>) returns (orphans: seq<T>)
    ensures orphans == Orphans(centers.keys, codes)
  {
    orphans := [];
    for n := 0 to |centers.keys|
      invariant orphans == Orphans(centers.keys[..n], codes)
    {
      var centerCode := centers.keys[n];
      if centerCode !in codes {
        orphans := orphans + [centerCode];
      }
      assert centers.keys[..n + 1][..n] == centers.keys[..n];
    }
    assert centers.keys[..|centers.keys|] == centers.keys;
  }

  /** merge_csv_files: build the centres dict, join, then reconcile the codes. */
  method MergeTables<T(==)>(cancer: Table<T>, centers: Table<T>) returns (r: Report<T>)
    requires Indexable(cancer, CancerFipsCol) && Indexable(centers, CenterFipsCol)
    ensures r == Merge(cancer, centers)
  {
    var centersDict := BuildDict(centers, CenterFipsCol);
    var joined, unmatched := JoinRows(cancer, centersDict);
    var cancerCodes := Column(cancer, CancerFipsCol);
    var orphans := ReportOrphans(centersDict, cancerCodes);
    r := Report(joined, unmatched, orphans);
  }

  // ---------------------------------------------------------------------------
  // The first pass

  /** The positions of the cancer rows whose code the dict holds (`hit`) or lacks (`!hit`). */
  ghost function Positions<T>(cancer: Table<T>, centers: Dict<T, seq<T>>, hit: bool): seq<nat>
    requires Indexable(cancer, CancerFipsCol)
    decreases |cancer|
  {
    if cancer == [] then []
    else
      var n := |cancer| - 1;
      var rest := Positions(cancer[..n], centers, hit);
      if (Fips(cancer[n]) in centers.entries) == hit then rest + [n] else rest
  }

  /**
   The positions list, in increasing order, exactly the rows whose code is
   (or is not) a key of the dict.
   */
  lemma {:induction false} PositionsSpec<T>(cancer: Table<T>, centers: Dict<T, seq<T>>, hit: bool)
    requires Indexable(cancer, CancerFipsCol)
    ensures forall j :: 0 <= j < |Positions(cancer, centers, hit)| ==>
      Positions(cancer, centers, hit)[j] < |cancer|
    ensures forall j :: 0 <= j < |Positions(cancer, centers, hit)| ==>
      (Fips(cancer[Positions(cancer, centers, hit)[j]]) in centers.entries) == hit
    ensures forall j, j' :: 0 <= j < j' < |Positions(cancer, centers, hit)| ==>
      Positions(cancer, centers, hit)[j] < Positions(cancer, centers, hit)[j']
    ensures forall i :: 0 <= i < |cancer| && (Fips(cancer[i]) in centers.entries) == hit ==>
      i in Positions(cancer, centers, hit)
    decreases |cancer|
  {
    if cancer != [] {
      var n := |cancer| - 1;
      PositionsSpec(cancer[..n], centers, hit);
      forall i | 0 <= i < n ensures cancer[..n][i] == cancer[i] { }
    }
  }

  /**
   The joined table holds, in cancer-table order, each matched row followed by
   the dict value of its code, and nothing else.
   */
  lemma {:induction false} JoinedRows<T>(cancer: Table<T>, centers: Dict<T, seq<T>>)
    requires Indexable(cancer, CancerFipsCol)
    ensures |Joined(cancer, centers)| == |Positions(cancer, centers, true)|
    ensures forall j :: 0 <= j < |Joined(cancer, centers)| ==>
      var i := Positions(cancer, centers, true)[j];
      i < |cancer| && Fips(cancer[i]) in centers.entries
      && Joined(cancer, centers)[j] == cancer[i] + centers.entries[Fips(cancer[i])]
    decreases |cancer|
  {
    PositionsSpec(cancer, centers, true);
    if cancer != [] {
      var n := |cancer| - 1;
      JoinedRows(cancer[..n], centers);
      PositionsSpec(cancer[..n], centers, true);
      forall i | 0 <= i < n ensures cancer[..n][i] == cancer[i] { }
    }
  }

  /** The unmatched report lists, in cancer-table order, exactly the rows whose code is no key. */
  lemma {:induction false} UnmatchedRows<T>(cancer: Table<T>, centers: Dict<T, seq<T>>)
    requires Indexable(cancer, CancerFipsCol)
    ensures |Unmatched(cancer, centers)| == |Positions(cancer, centers, false)|
    ensures forall j :: 0 <= j < |Unmatched(cancer, centers)| ==>
      var i := Positions(cancer, centers, false)[j];
      i < |cancer| && Fips(cancer[i]) !in centers.entries
      && Unmatched(cancer, centers)[j] == cancer[i]
    decreases |cancer|
  {
    PositionsSpec(cancer, centers, false);
    if cancer != [] {
      var n := |cancer| - 1;
      UnmatchedRows(cancer[..n], centers);
      PositionsSpec(cancer[..n], centers, false);
      forall i | 0 <= i < n ensures cancer[..n][i] == cancer[i] { }
    }
  }

  /** Every cancer row is either joined or reported, never both and never neither. */
  lemma {:induction false} JoinPartition<T>(cancer: Table<T>, centers: Dict<T, seq<T>>)
    requires Indexable(cancer, CancerFipsCol)
    ensures |Joined(cancer, centers)| + |Unmatched(cancer, centers)| == |cancer|
    decreases |cancer|
  {
    if cancer != [] {
      JoinPartition(cancer[..|cancer| - 1], centers);
    }
  }

  /** Adding a cancer row at the end extends exactly one of the two outputs. */
  lemma JoinSnoc<T>(cancer: Table<T>, row: Row<T>, centers: Dict<T, seq<T>>)
    requires Indexable(cancer, CancerFipsCol) && InRange(row, CancerFipsCol)
    ensures Indexable(cancer + [row], CancerFipsCol)
    ensures Fips(row) in centers.entries ==>
      && Joined(cancer + [row], centers) == Joined(cancer, centers) + [row + centers.entries[Fips(row)]]
      && Unmatched(cancer + [row], centers) == Unmatched(cancer, centers)
    ensures Fips(row) !in centers.entries ==>
      && Joined(cancer + [row], centers) == Joined(cancer, centers)
      && Unmatched(cancer + [row], centers) == Unmatched(cancer, centers) + [row]
  {
    assert (cancer + [row])[..|cancer|] == cancer;
  }

  // ---------------------------------------------------------------------------
  // The second pass

  /** A key is reported exactly when it is missing from the codes. */
  lemma {:induction false} OrphansMembers<T>(keys: seq<T>, codes: seq<T>)
    ensures forall k :: k in Orphans(keys, codes) <==> k in keys && k !in codes
    decreases |keys|
  {
    if keys != [] {
      var n := |keys| - 1;
      assert keys == keys[..n] + [keys[n]];
      OrphansMembers(keys[..n], codes);
    }
  }

  /** For distinct keys, the reported keys keep the dict's key order. */
  lemma {:induction false} OrphansOrder<T>(keys: seq<T>, codes: seq<T>)
    requires Distinct(keys)
    ensures FirstAppearanceOrder(Orphans(keys, codes), keys)
    decreases |keys|
  {
    if keys != [] {
      var n := |keys| - 1;
      var prefix := keys[..n];
      assert keys == prefix + [keys[n]];
      OrphansOrder(prefix, codes);
      OrphansMembers(prefix, codes);
      var rest := Orphans(prefix, codes);
      forall k | k in rest
        ensures k in keys && FirstIndex(keys, k) == FirstIndex(prefix, k)
      {
        FirstIndexSnocOld(prefix, keys[n], k);
      }
      if keys[n] !in codes {
        var orphans := rest + [keys[n]];
        assert keys[n] !in prefix;
        FirstIndexSnocNew(prefix, keys[n]);
        forall i, j | 0 <= i < j < |orphans|
          ensures FirstIndex(keys, orphans[i]) < FirstIndex(keys, orphans[j])
        {
          assert orphans[i] == rest[i];
          if j < |rest| {
            assert orphans[j] == rest[j];
          }
        }
      }
    }
  }

  // ---------------------------------------------------------------------------
  // The whole of merge_csv_files, stated against the two input tables

  /**
   Each joined row is a cancer row followed by the stored value of the last
   centres row sharing its FIPS code, so its length is the sum of the two row
   lengths less the one key field removed.
   */
  lemma MergeJoinedRow<T>(cancer: Table<T>, centers: Table<T>, j: nat)
    requires Indexable(cancer, CancerFipsCol) && Indexable(centers, CenterFipsCol)
    requires j < |Merge(cancer, centers).joined|
    ensures exists i, c :: (
      && 0 <= i < |cancer| && 0 <= c < |centers|
      && Fips(cancer[i]) == Cell(centers[c], CenterFipsCol)
      && LastRowWithKey(centers, CenterFipsCol, c, Fips(cancer[i]))
      && Merge(cancer, centers).joined[j] == cancer[i] + Entry(centers[c], CenterFipsCol)
      && |Merge(cancer, centers).joined[j]| == |cancer[i]| + |centers[c]| - 1)
  {
    var d := MakeDict(centers, CenterFipsCol);
    JoinedRows(cancer, d);
    var i := Positions(cancer, d, true)[j];
    MakeDictValues(centers, CenterFipsCol, Fips(cancer[i]));
    var c := LastIndex(Column(centers, CenterFipsCol), Fips(cancer[i]));
    assert 0 <= i < |cancer| && 0 <= c < |centers|;
  }

  /**
   The counts add up, a cancer row is reported exactly when no centres row has
   its FIPS code, and the code report is exactly the centres codes that no
   cancer row carries, in the order they first appear in the centres table.
   */
  lemma MergeReports<T>(cancer: Table<T>, centers: Table<T>)
    requires Indexable(cancer, CancerFipsCol) && Indexable(centers, CenterFipsCol)
    ensures |Merge(cancer, centers).joined| + |Merge(cancer, centers).unmatchedRows| == |cancer|
    ensures forall j :: 0 <= j < |Merge(cancer, centers).unmatchedRows| ==>
      var row := Merge(cancer, centers).unmatchedRows[j];
      row in cancer && Fips(row) !in Column(centers, CenterFipsCol)
    ensures forall i :: 0 <= i < |cancer| && Fips(cancer[i]) !in Column(centers, CenterFipsCol) ==>
      cancer[i] in Merge(cancer, centers).unmatchedRows
    ensures forall k :: k in Merge(cancer, centers).unmatchedCodes <==>
      k in Column(centers, CenterFipsCol) && k !in Column(cancer, CancerFipsCol)
    ensures FirstAppearanceOrder(Merge(cancer, centers).unmatchedCodes, Column(centers, CenterFipsCol))
  {
    var d := MakeDict(centers, CenterFipsCol);
    var r := Merge(cancer, centers);
    var centerCodes := Column(centers, CenterFipsCol);
    JoinPartition(cancer, d);
    MakeDictKeys(centers, CenterFipsCol);
    MakeDictValid(centers, CenterFipsCol);
    UnmatchedRows(cancer, d);
    PositionsSpec(cancer, d, false);
    forall i | 0 <= i < |cancer| && Fips(cancer[i]) !in centerCodes
      ensures cancer[i] in r.unmatchedRows
    {
      var j :| 0 <= j < |Positions(cancer, d, false)| && Positions(cancer, d, false)[j] == i;
      assert r.unmatchedRows[j] == cancer[i];
    }
    OrphansMembers(d.keys, Column(cancer, CancerFipsCol));
    OrphansOrder(d.keys, Column(cancer, CancerFipsCol));
    MakeDictOrder(centers, CenterFipsCol);
    forall a, b | 0 <= a < b < |r.unmatchedCodes|
      ensures FirstIndex(centerCodes, r.unmatchedCodes[a]) < FirstIndex(centerCodes, r.unmatchedCodes[b])
    {
      var x, y := r.unmatchedCodes[a], r.unmatchedCodes[b];
      var p, q := FirstIndex(d.keys, x), FirstIndex(d.keys, y);
      assert d.keys[p] == x && d.keys[q] == y;
    }
  }

  /**
   With no cancer rows nothing is joined and every centres code is reported;
   with no centres rows nothing is joined and every cancer row is reported.
   */
  lemma {:induction false} MergeEmptyTables<T>(cancer: Table<T>, centers: Table<T>)
    requires Indexable(cancer, CancerFipsCol) && Indexable(centers, CenterFipsCol)
    ensures cancer == [] ==> Merge(cancer, centers) == Report([], [], MakeDict(centers, CenterFipsCol).keys)
    ensures centers == [] ==> Merge(cancer, centers) == Report([], cancer, [])
  {
    if cancer == [] {
      assert Column(cancer, CancerFipsCol) == [];
      OrphansNoCodes(MakeDict(centers, CenterFipsCol).keys);
    }
    if centers == [] {
      JoinEmptyDict(cancer);
    }
  }

  /** Against no codes at all every key is an orphan. */
  lemma {:induction false} OrphansNoCodes<T>(keys: seq<T>)
    ensures Orphans(keys, []) == keys
    decreases |keys|
  {
    if keys != [] {
      OrphansNoCodes(keys[..|keys| - 1]);
      assert keys[..|keys| - 1] + [keys[|keys| - 1]] == keys;
    }
  }

  /** Against an empty dict every cancer row is unmatched. */
  lemma {:induction false} JoinEmptyDict<T>(cancer: Table<T>)
    requires Indexable(cancer, CancerFipsCol)
    ensures Joined(cancer, Empty()) == [] && Unmatched(cancer, Empty()) == cancer
    decreases |cancer|
  {
    if cancer != [] {
      var n := |cancer| - 1;
      JoinEmptyDict(cancer[..n]);
      assert cancer[..n] + [cancer[n]] == cancer;
    }
  }

  /**
   The two anomalies the source's notes describe: Clifton Forge (51560) has a
   cancer-risk row but no centre, Broomfield (08014) a centre but no
   cancer-risk row; a county present in both is joined.
   */
  lemma MergeAnomalyExample()
    ensures Merge([["VA", "Clifton Forge", "51560"], ["TX", "Harris", "48201"]],
                  [["48201", "302", "280"], ["08014", "120", "100"]])
         == Report([["TX", "Harris", "48201", "302", "280"]],
                   [["VA", "Clifton Forge", "51560"]],
                   ["08014"])
  {
    var clifton, harris := ["VA", "Clifton Forge", "51560"], ["TX", "Harris", "48201"];
    var houston, broomfield := ["48201", "302", "280"], ["08014", "120", "100"];
    var d := Dict(["48201", "08014"], map["48201" := ["302", "280"], "08014" := ["120", "100"]]);
    assert "51560" != "48201" && "51560" != "08014" && "48201" != "08014";
    assert Fips(clifton) == "51560" && Fips(harris) == "48201";
    assert "51560" !in d.entries && "48201" in d.entries;
    assert MakeDict([houston, broomfield], CenterFipsCol) == d by {
      MakeDictSnoc([], houston, CenterFipsCol);
      MakeDictSnoc([houston], broomfield, CenterFipsCol);
      assert [] + [houston] == [houston] && [houston] + [broomfield] == [houston, broomfield];
    }
    JoinSnoc([], clifton, d);
    JoinSnoc([clifton], harris, d);
    assert [] + [clifton] == [clifton] && [clifton] + [harris] == [clifton, harris];
    assert harris + ["302", "280"] == ["TX", "Harris", "48201", "302", "280"];
    assert Orphans(d.keys, Column([clifton, harris], CancerFipsCol)) == ["08014"] by {
      assert Column([clifton, harris], CancerFipsCol) == ["51560", "48201"];
      assert d.keys[..1][..0] == [] && d.keys[..1] == ["48201"];
    }
  }
}
