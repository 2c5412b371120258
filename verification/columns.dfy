/**
  Column and row cleanup of clean_format_combine.py. `reorder_columns` sorts the column names into
  ten groups by substring keywords and lists the groups in a fixed order, each in the frame's own
  column order; `clean_and_format_data` drops the rows before the first turbine timestamp and every
  datetime column but DATETIME, which it moves to the front.
 */
module Columns {
  import opened Wrappers
  import opened Seqs
  import opened Frames

  /** Selecting a column the frame does not have. */
  datatype ColumnError = MissingColumn(name: string)

  // ---------------------------------------------------------------------------------------------
  // reorder_columns

  /** The number of groups `reorder_columns` lists. */
  const GroupCount: nat := 10

  /** A raw sensor column of the site, such as `{site}-MCMS-WindSpeed`. */
  predicate RawSensor(c: string, site: string) {
    Contains(c, site + "-MCMS")
  }

  /**
    The keyword test of group `k`, in output order: 0 DATETIME, 1 FCST_Icing, 2 the other FCST
    columns, 3 MCMS, 4 MCMS1 and 5 MCMS2 (calculated columns only), 7 PerformanceIndex,
    8 ActivePower and 9 TheoreticalPower. Group 6 has no keyword of its own.
   */
  predicate Keyword(c: string, k: nat, site: string) {
    if k == 0 then c == "DATETIME"
    else if k == 1 then c == "FCST_Icing"
    else if k == 2 then Contains(c, "FCST") && c != "FCST_Icing"
    else if k == 3 then Contains(c, "MCMS") && !Contains(c, "MCMS1") && !Contains(c, "MCMS2") && !RawSensor(c, site)
    else if k == 4 then Contains(c, "MCMS1") && !RawSensor(c, site)
    else if k == 5 then Contains(c, "MCMS2") && !RawSensor(c, site)
    else if k == 7 then Contains(c, "PerformanceIndex")
    else if k == 8 then Contains(c, "ActivePower")
    else if k == 9 then Contains(c, "TheoreticalPower")
    else false
  }

  /** `remaining_cols`: no keyword selects the column. */
  predicate Remaining(c: string, site: string) {
    && !Keyword(c, 0, site) && !Keyword(c, 1, site) && !Keyword(c, 2, site) && !Keyword(c, 3, site)
    && !Keyword(c, 4, site) && !Keyword(c, 5, site) && !Keyword(c, 7, site) && !Keyword(c, 8, site)
    && !Keyword(c, 9, site)
  }

  /** Column `c` is selected by group `k`. */
  predicate Member(c: string, k: nat, site: string) {
    if k == 6 then Remaining(c, site) else Keyword(c, k, site)
  }

  /** Which group selects which column name: `sel(c, k)` says group `k` selects `c`. */
  type Selection = (string, nat) -> bool

  /** The test of group `k`, for filtering. */
  function Picks(sel: Selection, k: nat): string -> bool {
    c => sel(c, k)
  }

  /** The columns group `k` selects, in the frame's order: `[col for col in columns if ...]`. */
  function Pick(columns: seq<string>, k: nat, sel: Selection): seq<string>
    decreases |columns|
  {
    if |columns| == 0 then []
    else if sel(columns[0], k) then [columns[0]] + Pick(columns[1..], k, sel)
    else Pick(columns[1..], k, sel)
  }

  /** The comprehension is a filter by the group's test. */
  lemma {:induction false} PickIsFilter(columns: seq<string>, k: nat, sel: Selection)
    ensures Pick(columns, k, sel) == Filter(columns, Picks(sel, k))
    decreases |columns|
  {
    if |columns| > 0 {
      PickIsFilter(columns[1..], k, sel);
    }
  }

  /** The columns of group `k`: the two fixed names, or the frame's columns the group selects. */
  function SegmentOf(columns: seq<string>, k: nat, sel: Selection): seq<string> {
    if k == 0 then ["DATETIME"]
    else if k == 1 then ["FCST_Icing"]
    else Pick(columns, k, sel)
  }

  /** The groups from `k` on, each in the frame's column order. */
  function OrderOf(columns: seq<string>, k: nat, sel: Selection): seq<string>
    decreases GroupCount - k
  {
    if k >= GroupCount then [] else SegmentOf(columns, k, sel) + OrderOf(columns, k + 1, sel)
  }

  /** The selection that puts each column in the group of its rank. */
  function ByRank(rank: string -> nat): Selection {
    (c: string, k: nat) => rank(c) == k
  }

  /** The test "the column's group is `k`", for filtering. */
  function RankIs(rank: string -> nat, k: nat): string -> bool {
    Picks(ByRank(rank), k)
  }

  /**
    `rank` names the one group that selects each column: the groups do not overlap on `columns`, and
    the first two groups hold just DATETIME and FCST_Icing.
   */
  ghost predicate RankedBy(columns: seq<string>, sel: Selection, rank: string -> nat) {
    && rank("DATETIME") == 0 && rank("FCST_Icing") == 1
    && (forall c :: c in columns ==> rank(c) < GroupCount)
    && (forall c, k: nat :: c in columns && k < GroupCount ==> (sel(c, k) <==> k == rank(c)))
    && (forall c :: c in columns ==> (rank(c) == 0 <==> c == "DATETIME") && (rank(c) == 1 <==> c == "FCST_Icing"))
  }

  /** Every column a group from `k0` on selects is listed. */
  lemma {:induction false} OrderOfHas(columns: seq<string>, k0: nat, k: nat, sel: Selection, c: string)
    requires k0 <= k < GroupCount
    requires (k == 0 && c == "DATETIME") || (k == 1 && c == "FCST_Icing") || (k >= 2 && c in columns && sel(c, k))
    ensures c in OrderOf(columns, k0, sel)
    decreases k - k0
  {
    if k0 == k {
      if k >= 2 {
        PickIsFilter(columns, k, sel);
        var i :| 0 <= i < |columns| && columns[i] == c;
        assert Picks(sel, k)(columns[i]);
      }
      assert c in SegmentOf(columns, k, sel);
    } else {
      OrderOfHas(columns, k0 + 1, k, sel, c);
    }
  }

  /** Everything listed is a column of the frame or one of the two fixed names. */
  lemma {:induction false} OrderOfColumns(columns: seq<string>, k0: nat, sel: Selection, c: string)
    requires c in OrderOf(columns, k0, sel)
    ensures c in columns || c == "DATETIME" || c == "FCST_Icing"
    decreases GroupCount - k0
  {
    if k0 < GroupCount {
      if c !in SegmentOf(columns, k0, sel) {
        OrderOfColumns(columns, k0 + 1, sel, c);
      } else if k0 >= 2 {
        PickIsFilter(columns, k0, sel);
      }
    }
  }

  /** Each name listed for group `k` has rank `k`. */
  lemma SegmentRanks(columns: seq<string>, k: nat, sel: Selection, rank: string -> nat)
    requires k < GroupCount && RankedBy(columns, sel, rank)
    ensures var seg := SegmentOf(columns, k, sel); forall i :: 0 <= i < |seg| ==> rank(seg[i]) == k
  {
    var seg := SegmentOf(columns, k, sel);
    if k >= 2 {
      PickIsFilter(columns, k, sel);
      forall i | 0 <= i < |seg| ensures rank(seg[i]) == k {
        assert seg[i] in columns && Picks(sel, k)(seg[i]);
      }
    }
  }

  /** Ranks are at least `k0` and never decrease along `r`. */
  predicate RanksFrom(r: seq<string>, rank: string -> nat, k0: nat) {
    && (forall i :: 0 <= i < |r| ==> k0 <= rank(r[i]))
    && (forall i, j :: 0 <= i < j < |r| ==> rank(r[i]) <= rank(r[j]))
  }

  lemma RanksConcat(seg: seq<string>, rest: seq<string>, rank: string -> nat, k0: nat)
    requires forall i :: 0 <= i < |seg| ==> rank(seg[i]) == k0
    requires RanksFrom(rest, rank, k0 + 1)
    ensures RanksFrom(seg + rest, rank, k0)
  {
    var r := seg + rest;
    forall i | 0 <= i < |r| ensures k0 <= rank(r[i]) {
      if i >= |seg| {
        assert r[i] == rest[i - |seg|];
      }
    }
    forall i, j | 0 <= i < j < |r| ensures rank(r[i]) <= rank(r[j]) {
      if j < |seg| {
      } else if i < |seg| {
        assert r[j] == rest[j - |seg|];
      } else {
        assert r[i] == rest[i - |seg|] && r[j] == rest[j - |seg|];
      }
    }
  }

  /** From group `k0` on, ranks never decrease and none is below `k0`. */
  lemma {:induction false} OrderOfRanks(columns: seq<string>, k0: nat, sel: Selection, rank: string -> nat)
    requires RankedBy(columns, sel, rank)
    ensures RanksFrom(OrderOf(columns, k0, sel), rank, k0)
    decreases GroupCount - k0
  {
    if k0 < GroupCount {
      OrderOfRanks(columns, k0 + 1, sel, rank);
      SegmentRanks(columns, k0, sel, rank);
      RanksConcat(SegmentOf(columns, k0, sel), OrderOf(columns, k0 + 1, sel), rank, k0);
    }
  }

  /** How often a column of the frame is listed for group `k`. */
  lemma SegmentCount(columns: seq<string>, k: nat, sel: Selection, rank: string -> nat, x: string)
    requires k < GroupCount && RankedBy(columns, sel, rank) && x in columns
    ensures multiset(SegmentOf(columns, k, sel))[x] ==
      if rank(x) != k then 0 else if k < 2 then 1 else multiset(columns)[x]
  {
    if k >= 2 {
      PickIsFilter(columns, k, sel);
      FilterCount(columns, Picks(sel, k), x);
    }
  }

  /** The number of times `x` occurs in group `k`, when `rank` names the group of `x`. */
  function CountIn(columns: seq<string>, k: nat, rank: string -> nat, x: string): nat {
    if rank(x) != k then 0 else if k < 2 then 1 else multiset(columns)[x]
  }

  lemma CountAppend(a: seq<string>, b: seq<string>, x: string)
    ensures multiset(a + b)[x] == multiset(a)[x] + multiset(b)[x]
  {
    assert multiset(a + b) == multiset(a) + multiset(b);
  }

  lemma {:induction false} OrderOfCountFrom(columns: seq<string>, k0: nat, sel: Selection, rank: string -> nat, x: string)
    requires rank(x) < GroupCount
    requires forall k: nat :: k < GroupCount ==> multiset(SegmentOf(columns, k, sel))[x] == CountIn(columns, k, rank, x)
    ensures multiset(OrderOf(columns, k0, sel))[x] ==
      if rank(x) < k0 then 0 else if rank(x) < 2 then 1 else multiset(columns)[x]
    decreases GroupCount - k0
  {
    if k0 < GroupCount {
      OrderOfCountFrom(columns, k0 + 1, sel, rank, x);
      CountAppend(SegmentOf(columns, k0, sel), OrderOf(columns, k0 + 1, sel), x);
    }
  }

  lemma OrderOfCount(columns: seq<string>, sel: Selection, rank: string -> nat, x: string)
    requires RankedBy(columns, sel, rank) && x in columns
    ensures multiset(OrderOf(columns, 0, sel))[x] == if rank(x) < 2 then 1 else multiset(columns)[x]
  {
    forall k: nat | k < GroupCount ensures multiset(SegmentOf(columns, k, sel))[x] == CountIn(columns, k, rank, x) {
      SegmentCount(columns, k, sel, rank, x);
    }
    OrderOfCountFrom(columns, 0, sel, rank, x);
  }

  /** One column's count is kept: the group's pick for a ranked column, the fixed name for DATETIME and FCST_Icing. */
  lemma PermutationCount(columns: seq<string>, sel: Selection, rank: string -> nat, x: string)
    requires RankedBy(columns, sel, rank)
    requires multiset(columns)["DATETIME"] == 1 && multiset(columns)["FCST_Icing"] == 1
    ensures multiset(OrderOf(columns, 0, sel))[x] == multiset(columns)[x]
  {
    if x in columns {
      OrderOfCount(columns, sel, rank, x);
      if rank(x) == 0 {
        assert x == "DATETIME";
      } else if rank(x) == 1 {
        assert x == "FCST_Icing";
      }
    } else {
      assert "DATETIME" in multiset(columns) && "FCST_Icing" in multiset(columns);
      if x in OrderOf(columns, 0, sel) {
        OrderOfColumns(columns, 0, sel, x);
      }
    }
  }

  /** Every column is listed as often as it occurs, when the fixed names occur once each. */
  lemma OrderOfPermutation(columns: seq<string>, sel: Selection, rank: string -> nat)
    requires RankedBy(columns, sel, rank)
    requires multiset(columns)["DATETIME"] == 1 && multiset(columns)["FCST_Icing"] == 1
    ensures multiset(OrderOf(columns, 0, sel)) == multiset(columns)
  {
    var r := OrderOf(columns, 0, sel);
    forall x ensures multiset(r)[x] == multiset(columns)[x] {
      PermutationCount(columns, sel, rank, x);
    }
  }

  /** Picking group `k` out of a block of group `k0` followed by more: the block if `k0 == k`, then the rest. */
  lemma {:induction false} PickAppend(a: seq<string>, b: seq<string>, k: nat, sel: Selection)
    ensures Pick(a + b, k, sel) == Pick(a, k, sel) + Pick(b, k, sel)
    decreases |a|
  {
    if |a| == 0 {
      assert a + b == b;
    } else {
      assert (a + b)[1..] == a[1..] + b;
      PickAppend(a[1..], b, k, sel);
    }
  }

  /** A segment whose columns all have one rank is kept whole by that rank's pick and dropped by any other. */
  lemma {:induction false} PickSegment(seg: seq<string>, rank: string -> nat, k0: nat, k: nat)
    requires forall i :: 0 <= i < |seg| ==> rank(seg[i]) == k0
    ensures Pick(seg, k, ByRank(rank)) == if k0 == k then seg else []
    decreases |seg|
  {
    if |seg| > 0 {
      assert rank(seg[0]) == k0;
      PickSegment(seg[1..], rank, k0, k);
    }
  }

  /** Every column of segment `k` has rank `k`. */
  predicate SegmentRanked(columns: seq<string>, sel: Selection, rank: string -> nat, k: nat) {
    var seg := SegmentOf(columns, k, sel);
    forall i :: 0 <= i < |seg| ==> rank(seg[i]) == k
  }

  lemma {:induction false} OrderOfGroupFrom(columns: seq<string>, k0: nat, k: nat, sel: Selection, rank: string -> nat)
    requires forall j: nat :: k0 <= j < GroupCount ==> SegmentRanked(columns, sel, rank, j)
    ensures Pick(OrderOf(columns, k0, sel), k, ByRank(rank)) == if k0 <= k < GroupCount then SegmentOf(columns, k, sel) else []
    decreases GroupCount - k0
  {
    if k0 < GroupCount {
      var seg, rest := SegmentOf(columns, k0, sel), OrderOf(columns, k0 + 1, sel);
      assert OrderOf(columns, k0, sel) == seg + rest;
      assert SegmentRanked(columns, sel, rank, k0);
      PickAppend(seg, rest, k, ByRank(rank));
      PickSegment(seg, rank, k0, k);
      OrderOfGroupFrom(columns, k0 + 1, k, sel, rank);
    }
  }

  lemma OrderOfGroup(columns: seq<string>, k: nat, sel: Selection, rank: string -> nat)
    requires k < GroupCount && RankedBy(columns, sel, rank)
    ensures Pick(OrderOf(columns, 0, sel), k, ByRank(rank)) == SegmentOf(columns, k, sel)
  {
    forall j: nat | j < GroupCount ensures SegmentRanked(columns, sel, rank, j) {
      SegmentRanks(columns, j, sel, rank);
    }
    OrderOfGroupFrom(columns, 0, k, sel, rank);
  }

  // ---------------------------------------------------------------------------------------------
  // The keyword groups of reorder_columns

  /** The keyword groups of `site` as a selection. */
  function Select(site: string): Selection {
    (c: string, k: nat) => Member(c, k, site)
  }

  /** The first group that selects `c`; every column has one, the remaining group at the latest. */
  function Rank(c: string, site: string): (k: nat)
    ensures k < GroupCount && Member(c, k, site)
    ensures forall j :: 0 <= j < k ==> !Member(c, j, site)
  {
    if Member(c, 0, site) then 0
    else if Member(c, 1, site) then 1
    else if Member(c, 2, site) then 2
    else if Member(c, 3, site) then 3
    else if Member(c, 4, site) then 4
    else if Member(c, 5, site) then 5
    else if Member(c, 6, site) then 6
    else if Member(c, 7, site) then 7
    else if Member(c, 8, site) then 8
    else 9
  }

  function RankOf(site: string): string -> nat {
    c => Rank(c, site)
  }

  /** Only one group selects `c`. */
  predicate SingleGroup(c: string, site: string) {
    forall k :: 0 <= k < GroupCount && Member(c, k, site) ==> k == Rank(c, site)
  }

  /** The keyword groups do not overlap on any column. */
  predicate GroupsDisjoint(columns: seq<string>, site: string) {
    forall i :: 0 <= i < |columns| ==> SingleGroup(columns[i], site)
  }

  /** The groups do not overlap, and DATETIME and FCST_Icing occur once. */
  predicate KeywordsDisjoint(columns: seq<string>, site: string) {
    && GroupsDisjoint(columns, site)
    && multiset(columns)["DATETIME"] == 1
    && multiset(columns)["FCST_Icing"] == 1
  }

  /** A column name the first two groups pick is the fixed name of that group. */
  lemma RankOfFixed(c: string, site: string)
    ensures Rank(c, site) == 0 <==> c == "DATETIME"
    ensures Rank(c, site) == 1 <==> c == "FCST_Icing"
  {
  }

  /** When the keyword groups do not overlap, `Rank` names each column's one group. */
  lemma DisjointRanked(columns: seq<string>, site: string)
    requires GroupsDisjoint(columns, site)
    ensures RankedBy(columns, Select(site), RankOf(site))
  {
    RankOfFixed("DATETIME", site);
    RankOfFixed("FCST_Icing", site);
    forall c | c in columns
      ensures (Rank(c, site) == 0 <==> c == "DATETIME") && (Rank(c, site) == 1 <==> c == "FCST_Icing")
    {
      RankOfFixed(c, site);
    }
    forall c, k: nat | c in columns && k < GroupCount ensures Select(site)(c, k) <==> k == RankOf(site)(c) {
      var i :| 0 <= i < |columns| && columns[i] == c;
      assert SingleGroup(columns[i], site);
    }
  }

  /**
    `new_order` of `reorder_columns`: DATETIME, then FCST_Icing and the other FCST columns, the
    three MCMS groups, the remaining columns and the three turbine groups.
   */
  function NewOrder(columns: seq<string>, site: string): seq<string> {
    OrderOf(columns, 0, Select(site))
  }

  /** `reorder_columns` on the column names: `df[new_order]` raises when DATETIME or FCST_Icing is missing. */
  function ReorderColumns(columns: seq<string>, site: string): (r: Result<seq<string>, ColumnError>)
    ensures r.Failure? <==> "DATETIME" !in columns || "FCST_Icing" !in columns
    ensures r.Success? ==> |r.value| >= 2 && r.value[0] == "DATETIME" && r.value[1] == "FCST_Icing"
    ensures r.Success? ==> forall c :: c in columns ==> c in r.value
    ensures r.Success? ==> forall c :: c in r.value ==> c in columns
  {
    if "DATETIME" !in columns then Failure(MissingColumn("DATETIME"))
    else if "FCST_Icing" !in columns then Failure(MissingColumn("FCST_Icing"))
    else
      var r := NewOrder(columns, site);
      forall c | c in columns ensures c in r {
        ListedColumn(columns, site, c);
      }
      forall c | c in r ensures c in columns {
        OrderOfColumns(columns, 0, Select(site), c);
      }
      Success(r)
  }

  /** Every column is listed, in the first group that selects it. */
  lemma ListedColumn(columns: seq<string>, site: string, c: string)
    requires c in columns
    ensures c in NewOrder(columns, site)
  {
    var k := Rank(c, site);
    RankOfFixed(c, site);
    if k >= 2 {
      assert Select(site)(c, k);
    }
    OrderOfHas(columns, 0, k, Select(site), c);
  }

  /** When the groups do not overlap, the columns come out sorted by group. */
  lemma ReorderRanksAscending(columns: seq<string>, site: string)
    requires ReorderColumns(columns, site).Success? && GroupsDisjoint(columns, site)
    ensures var r := ReorderColumns(columns, site).value;
      forall i, j :: 0 <= i < j < |r| ==> Rank(r[i], site) <= Rank(r[j], site)
  {
    DisjointRanked(columns, site);
    OrderOfRanks(columns, 0, Select(site), RankOf(site));
    var r := ReorderColumns(columns, site).value;
    forall i, j | 0 <= i < j < |r| ensures Rank(r[i], site) <= Rank(r[j], site) {
      assert RankOf(site)(r[i]) <= RankOf(site)(r[j]);
    }
  }

  /** When the groups do not overlap, every column comes out exactly as often as it went in. */
  lemma ReorderIsPermutation(columns: seq<string>, site: string)
    requires KeywordsDisjoint(columns, site)
    ensures ReorderColumns(columns, site).Success?
    ensures multiset(ReorderColumns(columns, site).value) == multiset(columns)
  {
    assert "DATETIME" in multiset(columns) && "FCST_Icing" in multiset(columns);
    ReorderValue(columns, site);
    NewOrderPermutation(columns, site);
  }

  lemma ReorderValue(columns: seq<string>, site: string)
    requires "DATETIME" in columns && "FCST_Icing" in columns
    ensures ReorderColumns(columns, site) == Success(NewOrder(columns, site))
  {
  }

  lemma NewOrderPermutation(columns: seq<string>, site: string)
    requires KeywordsDisjoint(columns, site)
    ensures multiset(NewOrder(columns, site)) == multiset(columns)
  {
    DisjointRanked(columns, site);
    OrderOfPermutation(columns, Select(site), RankOf(site));
  }

  /**
    Within each selected group the columns keep the frame's order: picking the columns of group `k`
    out of the output gives the same list as picking them out of the input.
   */
  lemma ReorderKeepsGroupOrder(columns: seq<string>, site: string, k: nat)
    requires ReorderColumns(columns, site).Success? && GroupsDisjoint(columns, site) && 2 <= k < GroupCount
    ensures Filter(ReorderColumns(columns, site).value, RankIs(RankOf(site), k)) == Filter(columns, RankIs(RankOf(site), k))
  {
    DisjointRanked(columns, site);
    OrderOfGroup(columns, k, Select(site), RankOf(site));
    PickIsFilter(ReorderColumns(columns, site).value, k, ByRank(RankOf(site)));
    PickIsFilter(columns, k, Select(site));
    forall i | 0 <= i < |columns| ensures Picks(Select(site), k)(columns[i]) == RankIs(RankOf(site), k)(columns[i]) {
      assert columns[i] in columns;
    }
    FilterEquiv(columns, Picks(Select(site), k), RankIs(RankOf(site), k));
  }

  /** A raw sensor column of the site is in no MCMS group; unless another keyword claims it, it remains. */
  lemma RawSensorsRemain(c: string, site: string)
    requires RawSensor(c, site)
    ensures !Member(c, 3, site) && !Member(c, 4, site) && !Member(c, 5, site)
    ensures (&& c != "DATETIME" && c != "FCST_Icing" && !Member(c, 2, site) && !Member(c, 7, site)
             && !Member(c, 8, site) && !Member(c, 9, site)) ==> Rank(c, site) == 6
  {
  }

  /** `df[new_order]`: the same rows with the columns in the new order. */
  function ReorderFrame(f: Frame, site: string): (r: Result<Frame, ColumnError>)
    ensures r.Failure? <==> ReorderColumns(f.columns, site).Failure?
    ensures r.Success? ==> r.value.entries == f.entries && r.value.columns == ReorderColumns(f.columns, site).value
  {
    var columns :- ReorderColumns(f.columns, site);
    Success(Frame(columns, f.entries))
  }

  // ---------------------------------------------------------------------------------------------
  // clean_and_format_data

  /** Python's `str.lower` on ASCII letters. */
  function LowerChar(ch: char): char {
    if 'A' <= ch <= 'Z' then (ch as int + 32) as char else ch
  }

  function Lower(s: string): (r: string)
    ensures |r| == |s| && forall i :: 0 <= i < |s| ==> r[i] == LowerChar(s[i])
  {
    seq(|s|, i requires 0 <= i < |s| => LowerChar(s[i]))
  }

  /** A datetime column other than DATETIME: `'datetime' in col.lower() and col != 'DATETIME'`. */
  predicate IsDateTimeColumn(c: string): (r: bool)
    ensures r ==> c != "DATETIME" && |c| >= 8
    ensures c != "DATETIME" && (exists i :: LowerAt(c, "datetime", i)) ==> r
    ensures r ==> exists i :: LowerAt(c, "datetime", i)
  {
    LowerContains(c, "datetime");
    LowerContainsAt(c, "datetime");
    Contains(Lower(c), "datetime") && c != "DATETIME"
  }

  /** `sub` occurs at position `i` of `c`, ignoring the case of ASCII letters. */
  predicate LowerAt(c: string, sub: string, i: int) {
    0 <= i && i + |sub| <= |c| && Lower(c[i..i + |sub|]) == sub
  }

  /** Lowering commutes with slicing. */
  lemma LowerSlice(c: string, i: nat, j: nat)
    requires i <= j <= |c|
    ensures Lower(c)[i..j] == Lower(c[i..j])
  {
  }

  /** A text found in the lowered string fits in it, and one found at any position is found. */
  lemma LowerContains(c: string, sub: string)
    ensures Contains(Lower(c), sub) ==> |sub| <= |c|
    ensures (exists i :: LowerAt(c, sub, i)) ==> Contains(Lower(c), sub)
  {
    if Contains(Lower(c), sub) {
      ContainsLength(Lower(c), sub);
    }
    if exists i :: LowerAt(c, sub, i) {
      var i :| LowerAt(c, sub, i);
      LowerSlice(c, i, i + |sub|);
      ContainsAt(Lower(c), sub, i);
    }
  }

  /** A text found in the lowered string is found at some position of the string itself. */
  lemma LowerContainsAt(c: string, sub: string)
    ensures Contains(Lower(c), sub) ==> exists i :: LowerAt(c, sub, i)
  {
    if Contains(Lower(c), sub) {
      ContainsSomewhere(Lower(c), sub);
      var i :| At(Lower(c), sub, i);
      LowerSlice(c, i, i + |sub|);
      assert LowerAt(c, sub, i);
    }
  }

  /** The turbine timestamp of a row, when present. */
  function LocalTime(e: Entry): Option<int> {
    if "DateTimeLocal" in e.row && e.row["DateTimeLocal"].Time? then Some(e.row["DateTimeLocal"].t) else None
  }

  /** `merged_data['DateTimeLocal'].min()`, skipping missing values; missing when all are. */
  function MinLocal(s: Series): (r: Option<int>)
    ensures r.None? <==> forall i :: 0 <= i < |s| ==> LocalTime(s[i]).None?
    ensures r.Some? ==> exists i :: 0 <= i < |s| && LocalTime(s[i]) == r
    ensures r.Some? ==> forall i :: 0 <= i < |s| && LocalTime(s[i]).Some? ==> r.value <= LocalTime(s[i]).value
    decreases |s|
  {
    if |s| == 0 then None
    else
      var rest := MinLocal(s[1..]);
      var here := LocalTime(s[0]);
      var r := if here.None? then rest
               else if rest.None? || here.value <= rest.value then here
               else rest;
      assert forall i :: 0 < i < |s| ==> s[i] == s[1..][i - 1];
      assert rest.Some? ==> exists i :: 0 < i < |s| && LocalTime(s[i]) == rest by {
        if rest.Some? {
          var j :| 0 <= j < |s[1..]| && LocalTime(s[1..][j]) == rest;
          assert LocalTime(s[j + 1]) == rest;
        }
      }
      r
  }

  /** A row without its datetime cells. */
  function DropDateTimeCells(row: Row): (r: Row)
    ensures forall c :: !IsDateTimeColumn(c) ==> CellAt(r, c) == CellAt(row, c)
    ensures forall c :: IsDateTimeColumn(c) ==> c !in r
  {
    map c | c in row && !IsDateTimeColumn(c) :: row[c]
  }

  /** One row after `clean_and_format_data`. */
  function CleanEntry(e: Entry): Entry {
    Entry(e.time, DropDateTimeCells(e.row))
  }

  /** The row is at or after the first turbine timestamp. */
  function NotBefore(start: int): Entry -> bool {
    (e: Entry) => e.time >= start
  }

  /**
    `merged_data[merged_data['DATETIME'] >= start_time]` with `start_time` the first DateTimeLocal:
    when every DateTimeLocal is missing the comparison with NaT is false on every row.
   */
  function KeptRows(s: Series): (r: Series)
    ensures IsSubsequence(r, s)
    ensures forall i :: 0 <= i < |r| ==> r[i] in s
    ensures MinLocal(s).None? ==> r == []
    ensures MinLocal(s).Some? ==> forall i :: 0 <= i < |r| ==> r[i].time >= MinLocal(s).value
    ensures MinLocal(s).Some? ==> forall i :: 0 <= i < |s| && s[i].time >= MinLocal(s).value ==> s[i] in r
    ensures MinLocal(s).Some? ==> forall e :: multiset(r)[e] == if e.time >= MinLocal(s).value then multiset(s)[e] else 0
  {
    match MinLocal(s)
    case None => SubsequenceEmpty(s); []
    case Some(start) =>
      FilterIsSubsequence(s, NotBefore(start));
      FilterCounts(s, NotBefore(start));
      var r := Filter(s, NotBefore(start));
      assert forall i :: 0 <= i < |s| && s[i].time >= start ==> NotBefore(start)(s[i]);
      r
  }

  /** The kept column names: DATETIME first, then the others that are not datetime columns, in order. */
  function CleanColumns(columns: seq<string>): (r: seq<string>)
    requires "DATETIME" in columns
    ensures |r| > 0 && r[0] == "DATETIME"
    ensures forall c :: c in r <==> c in columns && !IsDateTimeColumn(c)
    ensures IsSubsequence(r[1..], columns) && "DATETIME" !in r[1..]
  {
    var cols := Filter(columns, c => !IsDateTimeColumn(c));
    var rest := Filter(cols, c => c != "DATETIME");
    FilterIsSubsequence(columns, c => !IsDateTimeColumn(c));
    FilterIsSubsequence(cols, c => c != "DATETIME");
    SubsequenceTrans(rest, cols, columns);
    var r := ["DATETIME"] + rest;
    assert r[1..] == rest;
    forall c ensures c in r <==> c in columns && !IsDateTimeColumn(c) {
      if c in columns && !IsDateTimeColumn(c) && c != "DATETIME" {
        assert c in cols;
      }
    }
    r
  }

  /**
    `clean_and_format_data`: keep the rows from the first DateTimeLocal on, drop the datetime
    columns other than DATETIME, and put DATETIME first. Selecting DateTimeLocal or DATETIME when
    the frame lacks it raises.
   */
  function CleanAndFormat(f: Frame): (r: Result<Frame, ColumnError>)
    ensures r.Failure? <==> "DateTimeLocal" !in f.columns || "DATETIME" !in f.columns
    ensures r.Success? ==> r.value.columns == CleanColumns(f.columns)
    ensures r.Success? ==> r.value.entries == CleanRows(f.entries)
  {
    if "DateTimeLocal" !in f.columns then Failure(MissingColumn("DateTimeLocal"))
    else if "DATETIME" !in f.columns then Failure(MissingColumn("DATETIME"))
    else
      Success(Frame(CleanColumns(f.columns), CleanRows(f.entries)))
  }

  /** The rows of the result: the kept rows without their datetime cells. */
  function CleanRows(s: Series): (r: Series)
    ensures |r| == |KeptRows(s)|
    ensures forall i :: 0 <= i < |r| ==> r[i] == CleanEntry(KeptRows(s)[i])
  {
    var kept := KeptRows(s);
    seq(|kept|, i requires 0 <= i < |kept| => CleanEntry(kept[i]))
  }

  /**
    The rows kept are the cleaned rows from the first turbine timestamp on: each comes from a row at
    or after it, and every such row is kept.
   */
  lemma CleanRowsFromStart(s: Series)
    requires MinLocal(s).Some?
    ensures var r := CleanRows(s);
      && (forall i :: 0 <= i < |r| ==>
            exists j :: 0 <= j < |s| && s[j].time >= MinLocal(s).value && r[i] == CleanEntry(s[j]))
      && (forall j :: 0 <= j < |s| && s[j].time >= MinLocal(s).value ==> CleanEntry(s[j]) in r)
  {
    CleanRowsOrigin(s, MinLocal(s).value);
    CleanRowsCover(s, MinLocal(s).value);
  }

  lemma CleanRowsOrigin(s: Series, start: int)
    requires MinLocal(s) == Some(start)
    ensures var r := CleanRows(s);
      forall i :: 0 <= i < |r| ==> exists j :: 0 <= j < |s| && s[j].time >= start && r[i] == CleanEntry(s[j])
  {
    var r, kept := CleanRows(s), KeptRows(s);
    forall i | 0 <= i < |r| ensures exists j :: 0 <= j < |s| && s[j].time >= start && r[i] == CleanEntry(s[j]) {
      assert kept[i] in s && kept[i].time >= start;
      var j :| 0 <= j < |s| && s[j] == kept[i];
      assert r[i] == CleanEntry(s[j]);
    }
  }

  lemma CleanRowsCover(s: Series, start: int)
    requires MinLocal(s) == Some(start)
    ensures var r := CleanRows(s);
      forall j :: 0 <= j < |s| && s[j].time >= start ==> CleanEntry(s[j]) in r
  {
    var r, kept := CleanRows(s), KeptRows(s);
    forall j | 0 <= j < |s| && s[j].time >= start ensures CleanEntry(s[j]) in r {
      assert s[j] in kept;
      var i :| 0 <= i < |kept| && kept[i] == s[j];
      assert r[i] == CleanEntry(s[j]);
    }
  }


  /** With no turbine timestamp at all, no row is kept. */
  lemma CleanAndFormatNoStart(f: Frame)
    requires CleanAndFormat(f).Success? && forall i :: 0 <= i < |f.entries| ==> LocalTime(f.entries[i]).None?
    ensures CleanAndFormat(f).value.entries == []
  {
  }

  /** The turbine timestamp column is one of the datetime columns. */
  lemma LocalIsDateTime()
    ensures IsDateTimeColumn("DateTimeLocal")
  {
    var c := "DateTimeLocal";
    assert LowerAt(c, "datetime", 0);
  }

  /** The turbine timestamp column itself is one of the dropped datetime columns. */
  lemma LocalColumnDropped(f: Frame)
    requires CleanAndFormat(f).Success?
    ensures "DateTimeLocal" !in CleanAndFormat(f).value.columns
  {
    LocalIsDateTime();
  }
}
