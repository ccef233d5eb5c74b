/** The per-row feature transforms of `extract_features.py`. Each step takes
    the event table, adds derived columns and hands the table on; a step whose
    pandas code raises (a missing input column, an invalid window) is caught
    and leaves the table as it was at the point of the exception. */
module Features {
  import opened Wrappers
  import opened Frames
  import opened Rolling
  import Decimal

  /** The configuration entries the extractor reads: `Config.ROLLING_WINDOWS`,
      `Config.OPERATIONS` and `Config.HOURS` (the predeclared hour columns). */
  datatype FeatureConfig = FeatureConfig(rollingWindows: seq<int>, operations: seq<string>, hours: seq<string>)

  // ---------------------------------------------------------------------
  // calculate_rolling_stats

  predicate Recognised(op: string)
  {
    op == "mean" || op == "std" || op == "var"
  }

  /** `f"{column}_{window}_{op}"`. */
  function TargetName(column: string, w: int, op: string): string
  {
    column + "_" + Decimal.IntToString(w) + "_" + op
  }

  /** Distinct (window, operation) pairs name distinct columns. */
  lemma TargetNameInjective(column: string, w1: int, op1: string, w2: int, op2: string)
    requires Recognised(op1) && Recognised(op2)
    requires TargetName(column, w1, op1) == TargetName(column, w2, op2)
    ensures w1 == w2 && op1 == op2
  {
    var s := TargetName(column, w1, op1);
    assert s == (column + "_" + Decimal.IntToString(w1) + "_") + op1;
    assert s == (column + "_" + Decimal.IntToString(w2) + "_") + op2;
    OpFromLastChar(column + "_" + Decimal.IntToString(w1) + "_", op1,
                    column + "_" + Decimal.IntToString(w2) + "_", op2);
    var d1 := Decimal.IntToString(w1);
    var d2 := Decimal.IntToString(w2);
    assert s == (column + "_") + d1 + ("_" + op1);
    assert s == (column + "_") + d2 + ("_" + op1);
    MiddleEqual(column + "_", d1, d2, "_" + op1);
    Decimal.IntToStringInjective(w1, w2);
  }

  /** The recognised operations end in distinct letters. */
  lemma OpFromLastChar(a1: string, op1: string, a2: string, op2: string)
    requires Recognised(op1) && Recognised(op2) && a1 + op1 == a2 + op2
    ensures op1 == op2
  {
    var s := a1 + op1;
    assert s[|s| - 1] == op1[|op1| - 1];
    assert (a2 + op2)[|s| - 1] == op2[|op2| - 1];
  }

  lemma MiddleEqual(a: string, x: string, y: string, b: string)
    requires a + x + b == a + y + b
    ensures x == y
  {
    var s := a + x + b;
    assert |x| == |y|;
    assert x == s[|a|..|a| + |x|];
    assert y == (a + y + b)[|a|..|a| + |y|];
  }

  /** A derived name starts with its source column and is longer than it. */
  lemma TargetNameExtendsColumn(column: string, w: int, op: string)
    ensures |TargetName(column, w, op)| > |column|
    ensures TargetName(column, w, op)[..|column|] == column
  {
  }

  /** A name that does not start with `column` is none of its derived names. */
  lemma NotATarget(column: string, cfg: FeatureConfig, name: string)
    requires |name| <= |column| || name[..|column|] != column
    ensures name !in ConfiguredTargets(column, cfg)
  {
    if name in ConfiguredTargets(column, cfg) {
      var w, op :| w in cfg.rollingWindows && op in cfg.operations && w >= 1 && Recognised(op) && name == TargetName(column, w, op);
      TargetNameExtendsColumn(column, w, op);
    }
  }

  /** A series mapped through the square root (numerics outside the model). */
  function SqrtSeries(xs: seq<Option<real>>, sqrt: real -> real): (r: seq<Option<real>>)
    ensures |r| == |xs|
  {
    seq(|xs|, i requires 0 <= i < |xs| => if xs[i].Some? then Some(sqrt(xs[i].value)) else None)
  }

  /** The column `data[column].rolling(window=w, min_periods=1).<op>()`,
      back-filled for std and var. */
  function StatColumn(op: string, xs: seq<Option<real>>, w: nat, sqrt: real -> real): (col: seq<Cell>)
    requires Recognised(op) && w >= 1
    ensures |col| == |xs|
  {
    if op == "mean" then ToCells(RollingAggregate(WindowMean, xs, w))
    else if op == "var" then ToCells(BackFill(RollingAggregate(WindowVar, xs, w)))
    else ToCells(BackFill(SqrtSeries(RollingAggregate(WindowVar, xs, w), sqrt)))
  }

  /** One (window, operation) iteration: an unrecognised operation adds
      nothing; a missing column or a window below 1 raises in pandas, and the
      exception handler leaves the column absent. */
  function AddStat(f: Frame, column: string, w: int, op: string, sqrt: real -> real): (r: Frame)
    requires Valid(f)
    ensures Extends(f, r)
  {
    if Recognised(op) && column in f.cols && w >= 1 then
      Assign(f, TargetName(column, w, op), StatColumn(op, View(f.cols[column]), w, sqrt))
    else f
  }

  /** The (window, operation) pairs in loop order: windows outer, operations inner. */
  function Pairs(windows: seq<int>, ops: seq<string>): (ps: seq<(int, string)>)
  {
    if windows == [] then []
    else seq(|ops|, k requires 0 <= k < |ops| => (windows[0], ops[k])) + Pairs(windows[1..], ops)
  }

  /** Every configured (window, operation) pair is visited, and only those. */
  lemma {:induction false} PairsCoverConfig(windows: seq<int>, ops: seq<string>)
    ensures forall p: (int, string) :: p in Pairs(windows, ops) <==> p.0 in windows && p.1 in ops
  {
    if windows != [] {
      PairsCoverConfig(windows[1..], ops);
      var head := seq(|ops|, k requires 0 <= k < |ops| => (windows[0], ops[k]));
      assert Pairs(windows, ops) == head + Pairs(windows[1..], ops);
      forall p: (int, string) | p.0 in windows && p.1 in ops
        ensures p in Pairs(windows, ops)
      {
        if p.0 == windows[0] {
          var k :| 0 <= k < |ops| && ops[k] == p.1;
          assert head[k] == p;
        } else {
          assert p.0 in windows[1..];
        }
      }
    }
  }

  function AddStats(f: Frame, column: string, ps: seq<(int, string)>, sqrt: real -> real): (r: Frame)
    requires Valid(f)
    ensures Valid(r) && r.n == f.n
    decreases |ps|
  {
    if ps == [] then f else AddStats(AddStat(f, column, ps[0].0, ps[0].1, sqrt), column, ps[1..], sqrt)
  }

  function CalculateRollingStats(f: Frame, column: string, cfg: FeatureConfig, sqrt: real -> real): (r: Frame)
    requires Valid(f)
    ensures Valid(r) && r.n == f.n
  {
    AddStats(f, column, Pairs(cfg.rollingWindows, cfg.operations), sqrt)
  }

  /** The columns a list of pairs adds to a table that has `column`. */
  function Targets(column: string, ps: seq<(int, string)>): set<string>
  {
    set p | p in ps && p.0 >= 1 && Recognised(p.1) :: TargetName(column, p.0, p.1)
  }

  /** What the pairs loop does to the columns of a table that has the source
      column: it adds or overwrites exactly the target columns, each with its
      statistic of the source column. */
  ghost predicate StatsAdded(fc: map<string, seq<Cell>>, rc: map<string, seq<Cell>>, column: string,
                             ps: seq<(int, string)>, sqrt: real -> real)
    requires column in fc
  {
    && column in rc && rc[column] == fc[column]
    && rc.Keys == fc.Keys + Targets(column, ps)
    && (forall c :: c in fc && c !in Targets(column, ps) ==> rc[c] == fc[c])
    && (forall p :: p in ps && p.0 >= 1 && Recognised(p.1) ==>
          rc[TargetName(column, p.0, p.1)] == StatColumn(p.1, View(fc[column]), p.0, sqrt))
  }

  lemma TargetsOfConcat(column: string, ps1: seq<(int, string)>, ps2: seq<(int, string)>)
    ensures Targets(column, ps1 + ps2) == Targets(column, ps1) + Targets(column, ps2)
  {
    forall c | c in Targets(column, ps1 + ps2)
      ensures c in Targets(column, ps1) + Targets(column, ps2)
    {
      var p :| p in ps1 + ps2 && p.0 >= 1 && Recognised(p.1) && c == TargetName(column, p.0, p.1);
    }
  }

  /** One iteration of the pairs loop. */
  lemma AddStatStep(f: Frame, column: string, p: (int, string), sqrt: real -> real)
    requires Valid(f) && column in f.cols
    ensures StatsAdded(f.cols, AddStat(f, column, p.0, p.1, sqrt).cols, column, [p], sqrt)
  {
    assert |TargetName(column, p.0, p.1)| > |column|;
    if p.0 >= 1 && Recognised(p.1) {
      assert Targets(column, [p]) == {TargetName(column, p.0, p.1)};
    } else {
      assert Targets(column, [p]) == {};
    }
  }

  /** Two runs of the pairs loop, one after the other, are one run over both
      lists: a later pair only overwrites a column of an earlier one when
      the two pairs are equal, by `TargetNameInjective`. */
  lemma StatsAddedCompose(fc: map<string, seq<Cell>>, gc: map<string, seq<Cell>>, rc: map<string, seq<Cell>>,
                          column: string, ps1: seq<(int, string)>, ps2: seq<(int, string)>, sqrt: real -> real)
    requires column in fc
    requires StatsAdded(fc, gc, column, ps1, sqrt)
    requires StatsAdded(gc, rc, column, ps2, sqrt)
    ensures StatsAdded(fc, rc, column, ps1 + ps2, sqrt)
  {
    TargetsOfConcat(column, ps1, ps2);
    var t1 := Targets(column, ps1);
    var t2 := Targets(column, ps2);
    forall c | c in fc && c !in Targets(column, ps1 + ps2)
      ensures rc[c] == fc[c]
    {
      assert rc[c] == gc[c];
    }
    forall p | p in ps1 + ps2 && p.0 >= 1 && Recognised(p.1)
      ensures rc[TargetName(column, p.0, p.1)] == StatColumn(p.1, View(fc[column]), p.0, sqrt)
    {
      var t := TargetName(column, p.0, p.1);
      if p !in ps2 {
        assert p in ps1;
        if t in t2 {
          var q :| q in ps2 && q.0 >= 1 && Recognised(q.1) && t == TargetName(column, q.0, q.1);
          TargetNameInjective(column, p.0, p.1, q.0, q.1);
          assert false;
        }
        assert t in t1;
        assert rc[t] == gc[t];
      }
    }
  }

  lemma {:induction false} AddStatsSpec(f: Frame, column: string, ps: seq<(int, string)>, sqrt: real -> real)
    requires Valid(f) && column in f.cols
    ensures StatsAdded(f.cols, AddStats(f, column, ps, sqrt).cols, column, ps, sqrt)
    decreases |ps|
  {
    if ps == [] {
      assert Targets(column, ps) == {};
    } else {
      var g := AddStat(f, column, ps[0].0, ps[0].1, sqrt);
      AddStatStep(f, column, ps[0], sqrt);
      AddStatsSpec(g, column, ps[1..], sqrt);
      assert [ps[0]] + ps[1..] == ps;
      StatsAddedCompose(f.cols, g.cols, AddStats(g, column, ps[1..], sqrt).cols, column, [ps[0]], ps[1..], sqrt);
    }
  }

  /** The pairs loop only overwrites or appends columns. */
  lemma {:induction false} AddStatsExtends(f: Frame, column: string, ps: seq<(int, string)>, sqrt: real -> real)
    requires Valid(f)
    ensures Extends(f, AddStats(f, column, ps, sqrt))
    decreases |ps|
  {
    if ps == [] {
      assert f.names[..|f.names|] == f.names;
    } else {
      var g := AddStat(f, column, ps[0].0, ps[0].1, sqrt);
      AddStatsExtends(g, column, ps[1..], sqrt);
      ExtendsTransitive(f, g, AddStats(g, column, ps[1..], sqrt));
    }
  }

  lemma {:induction false} AddStatsWithoutColumn(f: Frame, column: string, ps: seq<(int, string)>, sqrt: real -> real)
    requires Valid(f) && column !in f.cols
    ensures AddStats(f, column, ps, sqrt) == f
    decreases |ps|
  {
    if ps != [] {
      AddStatsWithoutColumn(f, column, ps[1..], sqrt);
    }
  }

  /** The names `{column}_{w}_{op}` for the configured windows `w >= 1` and
      recognised operations. */
  function ConfiguredTargets(column: string, cfg: FeatureConfig): set<string>
  {
    set w, op | w in cfg.rollingWindows && op in cfg.operations && w >= 1 && Recognised(op) :: TargetName(column, w, op)
  }

  lemma TargetsOfPairs(column: string, cfg: FeatureConfig)
    ensures Targets(column, Pairs(cfg.rollingWindows, cfg.operations)) == ConfiguredTargets(column, cfg)
  {
    var ps := Pairs(cfg.rollingWindows, cfg.operations);
    PairsCoverConfig(cfg.rollingWindows, cfg.operations);
    forall w, op | w in cfg.rollingWindows && op in cfg.operations && w >= 1 && Recognised(op)
      ensures TargetName(column, w, op) in Targets(column, ps)
    {
      assert (w, op) in ps;
    }
  }

  /** `calculate_rolling_stats(data, column)`: for every configured window
      `w >= 1` and every recognised operation, exactly the column
      `{column}_{w}_{op}` is added (or overwritten) and holds that rolling
      statistic of `column`; an unrecognised operation adds nothing; every
      other column and the row count are unchanged, and new columns are
      appended after the existing ones. Without `column`, nothing changes. */
  lemma RollingStatsColumns(f: Frame, column: string, cfg: FeatureConfig, sqrt: real -> real)
    requires Valid(f)
    ensures var r := CalculateRollingStats(f, column, cfg, sqrt);
      && Extends(f, r)
      && (column !in f.cols ==> r == f)
      && (column in f.cols ==>
            && r.cols.Keys == f.cols.Keys + ConfiguredTargets(column, cfg)
            && (forall w, op | w in cfg.rollingWindows && op in cfg.operations && w >= 1 && Recognised(op) ::
                  r.cols[TargetName(column, w, op)] == StatColumn(op, View(f.cols[column]), w, sqrt))
            && (forall c :: c in f.cols && c !in ConfiguredTargets(column, cfg) ==> r.cols[c] == f.cols[c]))
  {
    var ps := Pairs(cfg.rollingWindows, cfg.operations);
    var r := CalculateRollingStats(f, column, cfg, sqrt);
    AddStatsExtends(f, column, ps, sqrt);
    if column in f.cols {
      AddStatsSpec(f, column, ps, sqrt);
      assert StatsAdded(f.cols, r.cols, column, ps, sqrt);
      TargetsOfPairs(column, cfg);
      PairsCoverConfig(cfg.rollingWindows, cfg.operations);
      forall w, op | w in cfg.rollingWindows && op in cfg.operations && w >= 1 && Recognised(op)
        ensures r.cols[TargetName(column, w, op)] == StatColumn(op, View(f.cols[column]), w, sqrt)
      {
        var p := (w, op);
        assert p in ps;
        assert p.0 >= 1 && Recognised(p.1);
      }
    } else {
      AddStatsWithoutColumn(f, column, ps, sqrt);
    }
  }

  /** The rolling mean column is defined at every row of a column that has
      no undefined cell, and holds the mean of rows max(0, i - w + 1) .. i. */
  lemma MeanColumnDefined(col: seq<Cell>, w: nat, i: nat, sqrt: real -> real)
    requires w >= 1 && i < |col| && forall j :: 0 <= j < |col| ==> col[j] != Missing
    ensures StatColumn("mean", View(col), w, sqrt)[i]
            == Num(Total(Present(Window(View(col), w, i))) / (if i + 1 < w then i + 1 else w) as real)
  {
    assert Complete(View(col)) by {
      forall j | 0 <= j < |col| ensures View(col)[j].Some? {
        assert AsReal(col[j]).Some?;
      }
    }
    MeanOfCompleteColumn(View(col), w, i);
  }

  /** With a window of 1 the std and var columns are entirely undefined:
      every window holds one value, and `bfill()` has nothing to fill from. */
  lemma UnitWindowSpreadUndefined(col: seq<Cell>, op: string, i: nat, sqrt: real -> real)
    requires (op == "std" || op == "var") && i < |col|
    ensures StatColumn(op, View(col), 1, sqrt)[i] == Missing
  {
    var v := RollingAggregate(WindowVar, View(col), 1);
    forall j | 0 <= j < |v| ensures v[j] == None {
      VarianceUndefinedForUnitWindow(View(col), j);
    }
    if op == "var" {
      BackFillOfUndefined(v, i);
    } else {
      BackFillOfUndefined(SqrtSeries(v, sqrt), i);
    }
  }

  /** With a window of at least 2 and two defined leading values, row 0 of
      the var column (a one-value window, so undefined) is back-filled with
      row 1's value, the sample variance of the first two rows. Row 0 thus
      depends on row 1: back-fill looks ahead. */
  lemma VarColumnFirstRows(col: seq<Cell>, w: nat, sqrt: real -> real)
    requires w >= 2 && |col| >= 2 && col[0] != Missing && col[1] != Missing
    ensures var xs := View(col);
      && StatColumn("var", xs, w, sqrt)[0] == StatColumn("var", xs, w, sqrt)[1]
      && StatColumn("var", xs, w, sqrt)[1] == Num(SampleVariance([xs[0].value, xs[1].value]))
  {
    BackFilledVariance(View(col), w);
  }

  /** On a column with no undefined cell and a window of at least 2, the var
      column at every row i >= 1 is the sample variance (ddof 1) of rows
      max(0, i - w + 1) .. i; `StdIsRootOfVar` then gives the std column. */
  lemma VarColumnValue(col: seq<Cell>, w: nat, i: nat, sqrt: real -> real)
    requires w >= 2 && 1 <= i < |col| && forall j :: 0 <= j < |col| ==> col[j] != Missing
    ensures |Present(Window(View(col), w, i))| >= 2
    ensures StatColumn("var", View(col), w, sqrt)[i] == Num(SampleVariance(Present(Window(View(col), w, i))))
  {
    assert Complete(View(col)) by {
      forall j | 0 <= j < |col| ensures View(col)[j].Some? {
        assert AsReal(col[j]).Some?;
      }
    }
    BackFilledVarianceOfCompleteColumn(View(col), w, i);
  }

  lemma {:induction false} NextDefinedOfSqrt(xs: seq<Option<real>>, sqrt: real -> real, i: nat)
    ensures NextDefined(SqrtSeries(xs, sqrt), i)
            == if NextDefined(xs, i).Some? then Some(sqrt(NextDefined(xs, i).value)) else None
    decreases |xs| - i
  {
    if i < |xs| && xs[i].None? {
      NextDefinedOfSqrt(xs, sqrt, i + 1);
    }
  }

  /** Row by row, the std column is the square root of the var column for
      the same window, and each is undefined exactly where the other is. */
  lemma StdIsRootOfVar(col: seq<Cell>, w: nat, i: nat, sqrt: real -> real)
    requires w >= 1 && i < |col|
    ensures StatColumn("std", View(col), w, sqrt)[i]
            == (match StatColumn("var", View(col), w, sqrt)[i]
                case Num(v) => Num(sqrt(v))
                case _ => Missing)
  {
    var v := RollingAggregate(WindowVar, View(col), w);
    BackFillIsNextDefined(v, i);
    BackFillIsNextDefined(SqrtSeries(v, sqrt), i);
    NextDefinedOfSqrt(v, sqrt, i);
  }

  /** Every defined var cell is non-negative. */
  lemma VarColumnNonNegative(col: seq<Cell>, w: nat, i: nat, sqrt: real -> real)
    requires w >= 1 && i < |col|
    requires StatColumn("var", View(col), w, sqrt)[i].Num?
    ensures StatColumn("var", View(col), w, sqrt)[i].v >= 0.0
  {
    var v := RollingAggregate(WindowVar, View(col), w);
    BackFillIsNextDefined(v, i);
    NextDefinedNonNegative(View(col), w, i);
  }

  lemma {:induction false} NextDefinedNonNegative(xs: seq<Option<real>>, w: nat, i: nat)
    requires w >= 1
    requires NextDefined(RollingAggregate(WindowVar, xs, w), i).Some?
    ensures NextDefined(RollingAggregate(WindowVar, xs, w), i).value >= 0.0
    decreases |xs| - i
  {
    var v := RollingAggregate(WindowVar, xs, w);
    if v[i].Some? {
      VarianceNonNegative(xs, w, i);
    } else {
      NextDefinedNonNegative(xs, w, i + 1);
    }
  }

  // ---------------------------------------------------------------------
  // calculate_order_flow_imbalance

  /** The number of events the imbalance sums over. */
  const ImbalanceWindow: nat := 10

  /** `side_buy.replace({True: 1, False: -1})`. */
  function SideSign(c: Cell): Option<real>
  {
    match c
    case Flag(b) => Some(if b then 1.0 else -1.0)
    case _ => None
  }

  /** `size * sign`: `size` for a buy, `-size` otherwise. */
  function SignedSize(size: Cell, side: Cell): (r: Cell)
    ensures AsReal(size).Some? && side == Flag(true) ==> r == Num(AsReal(size).value)
    ensures AsReal(size).Some? && side == Flag(false) ==> r == Num(-AsReal(size).value)
    ensures r.Num? ==> AsReal(size).Some? && Abs(r.v) == Abs(AsReal(size).value)
  {
    match (AsReal(size), SideSign(side))
    case (Some(x), Some(s)) => Num(x * s)
    case _ => Missing
  }

  function SignedColumn(size: seq<Cell>, side: seq<Cell>): (r: seq<Cell>)
    requires |size| == |side|
    ensures |r| == |size| && forall i :: 0 <= i < |size| ==> r[i] == SignedSize(size[i], side[i])
  {
    seq(|size|, i requires 0 <= i < |size| => SignedSize(size[i], side[i]))
  }

  function CalculateOrderFlowImbalance(f: Frame): (r: Frame)
    requires Valid(f)
    ensures Extends(f, r)
  {
    if "size" in f.cols && "side_buy" in f.cols then
      var signed := SignedColumn(f.cols["size"], f.cols["side_buy"]);
      var g := Assign(f, "signed_size", signed);
      var r := Assign(g, "order_flow_imbalance", ToCells(RollingAggregate(WindowSum, View(g.cols["signed_size"]), ImbalanceWindow)));
      ExtendsTransitive(f, g, r);
      r
    else f
  }

  /** The two columns the order-flow step writes, and nothing else. */
  lemma OrderFlowImbalanceColumns(f: Frame)
    requires Valid(f)
    ensures var r := CalculateOrderFlowImbalance(f);
      && ("size" !in f.cols || "side_buy" !in f.cols ==> r == f)
      && ("size" in f.cols && "side_buy" in f.cols ==>
            var signed := SignedColumn(f.cols["size"], f.cols["side_buy"]);
            r.cols == f.cols["signed_size" := signed]["order_flow_imbalance" :=
                        ToCells(RollingAggregate(WindowSum, View(signed), ImbalanceWindow))])
  {
  }

  lemma {:induction false} AbsTotalNonNegative(p: seq<real>)
    ensures AbsTotal(p) >= 0.0
  {
    if p != [] {
      AbsTotalNonNegative(p[1..]);
    }
  }

  /** Dropping or keeping values, never growing them, cannot raise the total
      of absolute values. */
  lemma {:induction false} PresentAbsTotalDominated(a: seq<Option<real>>, b: seq<Option<real>>)
    requires |a| == |b|
    requires forall k :: 0 <= k < |a| && a[k].Some? ==> b[k].Some? && Abs(a[k].value) <= Abs(b[k].value)
    ensures AbsTotal(Present(a)) <= AbsTotal(Present(b))
  {
    if a != [] {
      PresentAbsTotalDominated(a[1..], b[1..]);
      AbsTotalNonNegative(Present(b[1..]));
      if a[0].Some? {
        assert Present(a) == [a[0].value] + Present(a[1..]);
        assert ([a[0].value] + Present(a[1..]))[1..] == Present(a[1..]);
      } else {
        assert Present(a) == Present(a[1..]);
      }
      if b[0].Some? {
        assert Present(b) == [b[0].value] + Present(b[1..]);
        assert ([b[0].value] + Present(b[1..]))[1..] == Present(b[1..]);
        assert AbsTotal(Present(b)) == Abs(b[0].value) + AbsTotal(Present(b[1..]));
      } else {
        assert Present(b) == Present(b[1..]);
      }
    }
  }

  /** `calculate_order_flow_imbalance`: with `size` and `side_buy` present,
      `signed_size` is `size` on a buy row and `-size` otherwise, and
      `order_flow_imbalance` at row i is the sum of the signed sizes over rows
      max(0, i - 9) .. i, so its magnitude is at most the total traded size
      in that window. Without either input column nothing changes. */
  lemma OrderFlowImbalanceSpec(f: Frame, i: nat)
    requires Valid(f) && i < f.n
    ensures var r := CalculateOrderFlowImbalance(f);
      && ("size" !in f.cols || "side_buy" !in f.cols ==> r == f)
      && ("size" in f.cols && "side_buy" in f.cols ==>
            var size := f.cols["size"][i];
            var signed := View(r.cols["signed_size"]);
            && (AsReal(size).Some? && f.cols["side_buy"][i] == Flag(true) ==> r.cols["signed_size"][i] == Num(AsReal(size).value))
            && (AsReal(size).Some? && f.cols["side_buy"][i] == Flag(false) ==> r.cols["signed_size"][i] == Num(-AsReal(size).value))
            && r.cols["order_flow_imbalance"][i] == ToCell(Aggregated(WindowSum, Window(signed, ImbalanceWindow, i)))
            && (r.cols["order_flow_imbalance"][i].Num? ==>
                  Abs(r.cols["order_flow_imbalance"][i].v)
                  <= AbsTotal(Present(Window(View(f.cols["size"]), ImbalanceWindow, i))))
            && (forall c :: c in f.cols && c != "signed_size" && c != "order_flow_imbalance" ==> r.cols[c] == f.cols[c]))
  {
    var r := CalculateOrderFlowImbalance(f);
    OrderFlowImbalanceColumns(f);
    if "size" in f.cols && "side_buy" in f.cols {
      ImbalanceBound(f.cols["size"], f.cols["side_buy"], i);
    }
  }

  /** Row by row, a signed size is undefined or as large as its size. */
  lemma SignedWindowDominated(size: seq<Cell>, side: seq<Cell>, i: nat)
    requires |size| == |side| && i < |size|
    ensures var a := Window(View(SignedColumn(size, side)), ImbalanceWindow, i);
      var b := Window(View(size), ImbalanceWindow, i);
      && |a| == |b|
      && forall k :: 0 <= k < |a| && a[k].Some? ==> b[k].Some? && Abs(a[k].value) <= Abs(b[k].value)
  {
    var signed := SignedColumn(size, side);
    var a := Window(View(signed), ImbalanceWindow, i);
    var b := Window(View(size), ImbalanceWindow, i);
    var s := WindowStart(i, ImbalanceWindow);
    forall k | 0 <= k < |a| && a[k].Some?
      ensures b[k].Some? && Abs(a[k].value) <= Abs(b[k].value)
    {
      assert a[k] == AsReal(signed[s + k]) && b[k] == AsReal(size[s + k]);
      assert signed[s + k] == SignedSize(size[s + k], side[s + k]);
    }
  }

  /** The imbalance at row i is at most the total absolute size of its window. */
  lemma ImbalanceBound(size: seq<Cell>, side: seq<Cell>, i: nat)
    requires |size| == |side| && i < |size|
    ensures var ofi := ToCells(RollingAggregate(WindowSum, View(SignedColumn(size, side)), ImbalanceWindow));
      ofi[i].Num? ==> Abs(ofi[i].v) <= AbsTotal(Present(Window(View(size), ImbalanceWindow, i)))
  {
    var a := Window(View(SignedColumn(size, side)), ImbalanceWindow, i);
    var b := Window(View(size), ImbalanceWindow, i);
    SignedWindowDominated(size, side, i);
    PresentAbsTotalDominated(a, b);
    TotalWithinAbsTotal(Present(a));
  }

  // ---------------------------------------------------------------------
  // add_cancellation_ratio

  /** A column pandas stores with the bool dtype: it has rows and every cell
      is a boolean. Booleans mixed with NaN or numbers make an object or a
      numeric column instead. */
  predicate BoolDtype(col: seq<Cell>)
  {
    |col| > 0 && forall i :: 0 <= i < |col| ==> col[i].Flag?
  }

  /** A cell equal to 0 becomes 1: a numeric zero, or a boolean `False`, since
      Python's `False == 0` decides in an object column. */
  function ReplaceZero(c: Cell): (r: Cell)
    ensures AsReal(r) != Some(0.0)
    ensures AsReal(c) != Some(0.0) ==> r == c
    ensures r != c ==> r == Num(1.0)
  {
    if AsReal(c) == Some(0.0) then Num(1.0) else c
  }

  /** `reason_canceled.astype(float) / type_received_adjusted`. A division by
      zero gives an infinity or NaN in floating point; the model records the
      non-finite result as `Missing`. */
  function Quotient(canceled: Cell, adjusted: Cell): (r: Cell)
    ensures r.Num? <==> AsReal(canceled).Some? && AsReal(adjusted).Some? && AsReal(adjusted) != Some(0.0)
    ensures r.Num? ==> r.v * AsReal(adjusted).value == AsReal(canceled).value
  {
    match (AsReal(canceled), AsReal(adjusted))
    case (Some(x), Some(y)) => if y == 0.0 then Missing else Num(x / y)
    case _ => Missing
  }

  /** `type_received.replace(0, 1)`. pandas replaces only values the
      column's dtype can hold: a bool column cannot hold 0 and is left as it
      is; in any other column each cell equal to 0 becomes 1. So the one
      zero denominator left is a `False` in a bool column. */
  function AdjustedColumn(received: seq<Cell>): (r: seq<Cell>)
    ensures |r| == |received|
    ensures forall i :: 0 <= i < |received| ==>
              r[i] == if BoolDtype(received) then received[i] else ReplaceZero(received[i])
    ensures forall i :: 0 <= i < |received| ==>
              (AsReal(r[i]) == Some(0.0) <==> BoolDtype(received) && received[i] == Flag(false))
  {
    if BoolDtype(received) then received
    else seq(|received|, i requires 0 <= i < |received| => ReplaceZero(received[i]))
  }

  function RatioColumn(canceled: seq<Cell>, adjusted: seq<Cell>): (r: seq<Cell>)
    requires |canceled| == |adjusted|
    ensures |r| == |canceled| && forall i :: 0 <= i < |canceled| ==> r[i] == Quotient(canceled[i], adjusted[i])
  {
    seq(|canceled|, i requires 0 <= i < |canceled| => Quotient(canceled[i], adjusted[i]))
  }

  function AddCancellationRatio(f: Frame): (r: Frame)
    requires Valid(f)
    ensures Valid(r) && r.n == f.n
    ensures "type_received" !in f.cols ==> r == f
  {
    if "type_received" !in f.cols then f
    else
      var adjusted := AdjustedColumn(f.cols["type_received"]);
      var g := Assign(f, "type_received_adjusted", adjusted);
      if "reason_canceled" !in g.cols then g  // the division raises after the helper was added
      else
        var ratio := RatioColumn(g.cols["reason_canceled"], g.cols["type_received_adjusted"]);
        Drop(Assign(g, "cancel_to_received_ratio", ratio), "type_received_adjusted")
  }

  /** `add_cancellation_ratio`: with both input columns, the ratio at row i is
      `reason_canceled / type_received`, with a zero count replaced by 1,
      except in a bool column, where `False` stays and the division by it
      leaves no finite ratio. The helper column is gone afterwards. */
  lemma CancellationRatioSpec(f: Frame, i: nat)
    requires Valid(f) && i < f.n
    requires "type_received" in f.cols && "reason_canceled" in f.cols
    ensures var r := AddCancellationRatio(f);
      && "type_received_adjusted" !in r.cols
      && "cancel_to_received_ratio" in r.cols
      && r.cols["cancel_to_received_ratio"][i]
         == (match (AsReal(f.cols["reason_canceled"][i]), f.cols["type_received"][i])
             case (Some(x), Num(y)) => Num(x / (if y == 0.0 then 1.0 else y))
             case (Some(x), Flag(b)) =>
               if b || !BoolDtype(f.cols["type_received"]) then Num(x) else Missing
             case _ => Missing)
  {
    RatioColumnOfTable(f);
    RatioCell(f.cols["reason_canceled"], f.cols["type_received"], i);
  }

  /** With both inputs, the ratio column is computed from the two input
      columns alone, and the helper is gone. */
  lemma RatioColumnOfTable(f: Frame)
    requires Valid(f) && "type_received" in f.cols && "reason_canceled" in f.cols
    ensures var r := AddCancellationRatio(f);
      && "type_received_adjusted" !in r.cols
      && "cancel_to_received_ratio" in r.cols
      && r.cols["cancel_to_received_ratio"]
         == RatioColumn(f.cols["reason_canceled"], AdjustedColumn(f.cols["type_received"]))
  {
    var adjusted := AdjustedColumn(f.cols["type_received"]);
    var g := Assign(f, "type_received_adjusted", adjusted);
    assert g.cols["reason_canceled"] == f.cols["reason_canceled"];
    var ratio := RatioColumn(f.cols["reason_canceled"], adjusted);
    var h := Assign(g, "cancel_to_received_ratio", ratio);
    assert AddCancellationRatio(f) == Drop(h, "type_received_adjusted");
  }

  /** One row of the ratio column, stated on the two input columns. */
  lemma RatioCell(canceled: seq<Cell>, received: seq<Cell>, i: nat)
    requires |canceled| == |received| && i < |received|
    ensures RatioColumn(canceled, AdjustedColumn(received))[i]
         == (match (AsReal(canceled[i]), received[i])
             case (Some(x), Num(y)) => Num(x / (if y == 0.0 then 1.0 else y))
             case (Some(x), Flag(b)) => if b || !BoolDtype(received) then Num(x) else Missing
             case _ => Missing)
  {
    var a := AdjustedColumn(received)[i];
    assert a == if BoolDtype(received) then received[i] else ReplaceZero(received[i]);
  }

  /** `add_cancellation_ratio` changes no column but the ratio and the
      helper: `type_received` itself keeps its values, and when the helper
      name is not already taken the table only gains the ratio column. */
  lemma CancellationRatioPreserves(f: Frame)
    requires Valid(f) && "type_received" in f.cols && "reason_canceled" in f.cols
    ensures var r := AddCancellationRatio(f);
      && (forall c :: c in f.cols && c != "type_received_adjusted" && c != "cancel_to_received_ratio" ==>
            c in r.cols && r.cols[c] == f.cols[c])
      && ("type_received_adjusted" !in f.cols ==> Extends(f, r))
  {
    var adjusted := AdjustedColumn(f.cols["type_received"]);
    var g := Assign(f, "type_received_adjusted", adjusted);
    var ratio := RatioColumn(g.cols["reason_canceled"], g.cols["type_received_adjusted"]);
    var h := Assign(g, "cancel_to_received_ratio", ratio);
    var r := Drop(h, "type_received_adjusted");
    assert AddCancellationRatio(f) == r;
    forall c | c in f.cols && c != "type_received_adjusted" && c != "cancel_to_received_ratio"
      ensures c in r.cols && r.cols[c] == f.cols[c]
    {
      assert h.cols[c] == g.cols[c] == f.cols[c];
    }
    if "type_received_adjusted" !in f.cols {
      ExtendsTransitive(f, g, h);
      DropKeepsExtends(f, h, "type_received_adjusted");
    }
  }

  /** When `reason_canceled` is missing the division raises after the helper
      column was added: the helper stays and no ratio is added. Without
      `type_received` nothing changes. */
  lemma CancellationRatioPartialFailure(f: Frame)
    requires Valid(f) && "reason_canceled" !in f.cols
    ensures var r := AddCancellationRatio(f);
      && ("type_received" !in f.cols ==> r == f)
      && ("type_received" in f.cols ==>
            && "type_received_adjusted" in r.cols
            && r.cols.Keys == f.cols.Keys + {"type_received_adjusted"}
            && forall i :: 0 <= i < f.n ==>
                 var col := f.cols["type_received"];
                 var h := r.cols["type_received_adjusted"][i];
                 && (h == col[i] || (AsReal(col[i]) == Some(0.0) && !BoolDtype(col) && h == Num(1.0)))
                 && (AsReal(h) == Some(0.0) <==> BoolDtype(col) && col[i] == Flag(false)))
  {
  }

  /** A bool count column holding `False`, with a cancellation: `replace(0, 1)`
      leaves `False` in place, the division is by zero, and no finite ratio
      results. `RatioColumnOfTable` makes this the table's ratio column. */
  lemma FalseCountRatioUndefined(canceled: seq<Cell>, received: seq<Cell>)
    requires received == [Flag(false)] && canceled == [Flag(true)]
    ensures RatioColumn(canceled, AdjustedColumn(received)) == [Missing]
  {
    assert BoolDtype(received);
    RatioCell(canceled, received, 0);
  }

  /** A count column holding `False` and NaN is an object column: there
      `False == 0`, so `False` becomes 1 and the ratio is finite. */
  lemma ObjectFalseCountDivides(canceled: seq<Cell>, received: seq<Cell>)
    requires received == [Flag(false), Missing] && canceled == [Flag(true), Flag(true)]
    ensures RatioColumn(canceled, AdjustedColumn(received)) == [Num(1.0), Missing]
  {
    assert !BoolDtype(received) by {
      assert received[1] == Missing;
    }
    RatioCell(canceled, received, 0);
    RatioCell(canceled, received, 1);
  }

  /** The replacement the code evidently intends: every count equal to 0,
      whatever the column's dtype, becomes 1. */
  function IntendedColumn(received: seq<Cell>): (r: seq<Cell>)
    ensures |r| == |received|
    ensures forall i :: 0 <= i < |received| ==> AsReal(r[i]) != Some(0.0)
    ensures forall i :: 0 <= i < |received| ==> r[i] == ReplaceZero(received[i])
  {
    seq(|received|, i requires 0 <= i < |received| => ReplaceZero(received[i]))
  }

  /** With the intended replacement every row with a defined cancellation
      and a defined count has a finite ratio, and it agrees with the code
      everywhere but at a `False` of a bool column. */
  lemma IntendedRatioDefined(canceled: seq<Cell>, received: seq<Cell>, i: nat)
    requires |canceled| == |received| && i < |received|
    requires AsReal(canceled[i]).Some? && AsReal(received[i]).Some?
    ensures Quotient(canceled[i], IntendedColumn(received)[i]).Num?
    ensures !(BoolDtype(received) && received[i] == Flag(false)) ==>
              Quotient(canceled[i], IntendedColumn(received)[i]) == Quotient(canceled[i], AdjustedColumn(received)[i])
  {
    if BoolDtype(received) && received[i] != Flag(false) {
      assert received[i] == Flag(true);
    }
  }

  // ---------------------------------------------------------------------
  // market_spread

  /** `best_ask - best_bid`. */
  function Difference(ask: Cell, bid: Cell): Cell
  {
    match (AsReal(ask), AsReal(bid))
    case (Some(a), Some(b)) => Num(a - b)
    case _ => Missing
  }

  function SpreadColumn(ask: seq<Cell>, bid: seq<Cell>): (r: seq<Cell>)
    requires |ask| == |bid|
    ensures |r| == |ask| && forall i :: 0 <= i < |ask| ==> r[i] == Difference(ask[i], bid[i])
  {
    seq(|ask|, i requires 0 <= i < |ask| => Difference(ask[i], bid[i]))
  }

  /** Both quotes are present, and not both bool columns: pandas refuses to
      subtract one bool column from another. */
  predicate SpreadComputable(f: Frame)
  {
    && "best_ask" in f.cols && "best_bid" in f.cols
    && !(BoolDtype(f.cols["best_ask"]) && BoolDtype(f.cols["best_bid"]))
  }

  function MarketSpread(f: Frame): (r: Frame)
    requires Valid(f)
    ensures Extends(f, r)
    ensures !SpreadComputable(f) ==> r == f
  {
    if SpreadComputable(f) then
      Assign(f, "spread", SpreadColumn(f.cols["best_ask"], f.cols["best_bid"]))
    else f
  }

  /** `market_spread`: `spread` at every row is `best_ask - best_bid`
      (undefined when either is); nothing else changes. Without a quote
      column, or with two bool quote columns, the subtraction raises and the
      table is unchanged. */
  lemma MarketSpreadSpec(f: Frame, i: nat)
    requires Valid(f) && i < f.n
    ensures var r := MarketSpread(f);
      && (!SpreadComputable(f) ==> r == f)
      && (SpreadComputable(f) ==>
            && (AsReal(f.cols["best_ask"][i]).Some? && AsReal(f.cols["best_bid"][i]).Some? ==>
                  r.cols["spread"][i].Num?
                  && r.cols["spread"][i].v + AsReal(f.cols["best_bid"][i]).value == AsReal(f.cols["best_ask"][i]).value)
            && (AsReal(f.cols["best_ask"][i]).None? || AsReal(f.cols["best_bid"][i]).None? ==> r.cols["spread"][i] == Missing)
            && (forall c :: c in f.cols && c != "spread" ==> r.cols[c] == f.cols[c]))
  {
  }

  // ---------------------------------------------------------------------
  // encode_hour_of_day

  /** Python's `int(x)` on a float truncates toward zero. */
  function Trunc(v: real): int
  {
    if v >= 0.0 then v.Floor else -((-v).Floor)
  }

  /** `int(row["hour_of_day"])`: booleans convert to 1 and 0; NaN raises. */
  function HourOf(c: Cell): (h: Option<int>)
    ensures h.None? <==> c == Missing
  {
    match c
    case Num(v) => Some(Trunc(v))
    case Flag(b) => Some(if b then 1 else 0)
    case Missing => None
  }

  /** `f'hour_{h}'`. */
  function HourName(h: int): string
  {
    "hour_" + Decimal.IntToString(h)
  }

  function Zeros(n: nat): (z: seq<Cell>)
    ensures |z| == n && forall i :: 0 <= i < n ==> z[i] == Num(0.0)
  {
    seq(n, _ => Num(0.0))
  }

  /** The first loop, `for hour in Config.HOURS: data[hour] = 0`, after its
      first `|hours|` iterations. */
  function ZeroFill(f: Frame, hours: seq<string>): (r: Frame)
    requires Valid(f)
    ensures Valid(r) && r.n == f.n
    decreases |hours|
  {
    if hours == [] then f
    else
      var g := ZeroFill(f, hours[..|hours| - 1]);
      Assign(g, hours[|hours| - 1], Zeros(f.n))
  }

  /** The zero fill only overwrites or appends columns. */
  lemma {:induction false} ZeroFillExtends(f: Frame, hours: seq<string>)
    requires Valid(f)
    ensures Extends(f, ZeroFill(f, hours))
    decreases |hours|
  {
    if hours != [] {
      var g := ZeroFill(f, hours[..|hours| - 1]);
      ZeroFillExtends(f, hours[..|hours| - 1]);
      ExtendsTransitive(f, g, ZeroFill(f, hours));
    }
  }

  lemma ZeroFillStep(f: Frame, hours: seq<string>)
    requires Valid(f) && hours != []
    ensures ZeroFill(f, hours).cols
         == ZeroFill(f, hours[..|hours| - 1]).cols[hours[|hours| - 1] := Zeros(f.n)]
  {
  }

  /** The columns of the zero fill, as a map update per hour. */
  function ZeroCols(cols: map<string, seq<Cell>>, n: nat, hours: seq<string>): map<string, seq<Cell>>
    decreases |hours|
  {
    if hours == [] then cols
    else ZeroCols(cols, n, hours[..|hours| - 1])[hours[|hours| - 1] := Zeros(n)]
  }

  lemma {:induction false} ZeroFillCols(f: Frame, hours: seq<string>)
    requires Valid(f)
    ensures ZeroFill(f, hours).cols == ZeroCols(f.cols, f.n, hours)
    decreases |hours|
  {
    if hours != [] {
      ZeroFillStep(f, hours);
      ZeroFillCols(f, hours[..|hours| - 1]);
    }
  }

  lemma {:induction false} ZeroColsSpec(cols: map<string, seq<Cell>>, n: nat, hours: seq<string>)
    ensures var z := ZeroCols(cols, n, hours);
      && (forall c :: c in z <==> c in cols || c in hours)
      && (forall h :: h in hours ==> z[h] == Zeros(n))
      && (forall c :: c in cols && c !in hours ==> z[c] == cols[c])
    decreases |hours|
  {
    if hours != [] {
      var init := hours[..|hours| - 1];
      ZeroColsSpec(cols, n, init);
      assert hours == init + [hours[|hours| - 1]];
    }
  }

  /** The zero fill gives every hour column (existing or not) all zeros and
      touches nothing else. */
  lemma ZeroFillColumns(f: Frame, hours: seq<string>)
    requires Valid(f)
    ensures var z := ZeroFill(f, hours);
      && (forall c :: c in z.cols <==> c in f.cols || c in hours)
      && (forall h :: h in hours ==> z.cols[h] == Zeros(f.n))
      && (forall c :: c in f.cols && c !in hours ==> z.cols[c] == f.cols[c])
  {
    ZeroFillCols(f, hours);
    ZeroColsSpec(f.cols, f.n, hours);
  }

  /** The hour the row loop reads at row `j`, if the lookup and `int(...)`
      succeed. */
  function RowHour(z: Frame, j: nat): Option<int>
    requires Valid(z) && j < z.n
  {
    if "hour_of_day" in z.cols then HourOf(z.cols["hour_of_day"][j]) else None
  }

  /** The rows the row loop completes from row `j` on before an exception
      ends it (or before the table ends). */
  function EncodedRows(z: Frame, j: nat): (k: nat)
    requires Valid(z) && j <= z.n
    ensures j <= k <= z.n
    decreases z.n - j
  {
    if j == z.n || RowHour(z, j).None? then j else EncodedRows(z, j + 1)
  }

  /** Whether the row loop, having completed rows 0 .. stop - 1, wrote a 1
      into column `c` at row `j`. */
  predicate Marks(z: Frame, stop: nat, c: string, j: nat)
    requires Valid(z) && j < z.n
  {
    j < stop && RowHour(z, j).Some? && HourName(RowHour(z, j).value) == c
  }

  function MarkedColumn(z: Frame, stop: nat, c: string): (col: seq<Cell>)
    requires Valid(z) && c in z.cols
    ensures |col| == z.n
    ensures forall j :: 0 <= j < z.n ==> col[j] == if Marks(z, stop, c, j) then Num(1.0) else z.cols[c][j]
  {
    seq(z.n, j requires 0 <= j < z.n => if Marks(z, stop, c, j) then Num(1.0) else z.cols[c][j])
  }

  /** The table `encode_hour_of_day` returns: the zero-filled table with a 1
      at (j, hour_h) for every row j the loop completed whose hour is h, when
      the table has a column `hour_h`. */
  function Encoded(f: Frame, hours: seq<string>): (r: Frame)
    requires Valid(f)
    ensures r.n == f.n
  {
    MarkedRows(ZeroFill(f, hours))
  }

  /** The row loop run over the zero-filled table `z`. */
  function MarkedRows(z: Frame): (r: Frame)
    requires Valid(z)
    ensures r.n == z.n && r.names == z.names && r.cols.Keys == z.cols.Keys
  {
    var stop := EncodedRows(z, 0);
    Frame(z.n, z.names, map c | c in z.cols :: MarkedColumn(z, stop, c))
  }

  lemma {:induction false} EncodedRowsAt(z: Frame, j: nat, i: nat)
    requires Valid(z) && j <= i <= z.n
    requires forall k :: j <= k < i ==> RowHour(z, k).Some?
    requires i == z.n || RowHour(z, i).None?
    ensures EncodedRows(z, j) == i
    decreases i - j
  {
    if j < i {
      EncodedRowsAt(z, j + 1, i);
    }
  }

  /** One pass of the zero-fill loop. */
  lemma ZeroFillPrefix(f: Frame, hours: seq<string>, k: nat)
    requires Valid(f) && k < |hours|
    ensures ZeroFill(f, hours[..k + 1]) == Assign(ZeroFill(f, hours[..k]), hours[k], Zeros(f.n))
  {
    assert hours[..k + 1][..k] == hours[..k];
  }

  /** One pass of the row loop: writing 1 into `hour_h` at row `i` turns
      the columns marked up to row `i` into those marked up to row `i + 1`. */
  lemma MarkRow(z: Frame, cols: map<string, seq<Cell>>, i: nat)
    requires Valid(z) && i < z.n && RowHour(z, i).Some?
    requires cols.Keys == z.cols.Keys
    requires forall c :: c in cols ==> c in z.cols && |cols[c]| == z.n && cols[c] == MarkedColumn(z, i, c)
    ensures var name := HourName(RowHour(z, i).value);
      var next := if name in cols then cols[name := cols[name][i := Num(1.0)]] else cols;
      && next.Keys == z.cols.Keys
      && forall c :: c in z.cols ==> next[c] == MarkedColumn(z, i + 1, c)
  {
    var name := HourName(RowHour(z, i).value);
    var next := if name in cols then cols[name := cols[name][i := Num(1.0)]] else cols;
    forall c | c in z.cols
      ensures next[c] == MarkedColumn(z, i + 1, c)
    {
      assert forall j :: 0 <= j < z.n ==> next[c][j] == MarkedColumn(z, i + 1, c)[j];
    }
  }

  /** `encode_hour_of_day`: zero-fill the predeclared hour columns, then for
      each row set `hour_{int(hour_of_day)}` to 1 when the table has that
      column. An exception (no `hour_of_day` column, an undefined hour) ends
      the loop and the table is returned as it stands. */
  method EncodeHourOfDay(f: Frame, hours: seq<string>) returns (r: Frame)
    requires Valid(f)
    ensures r == Encoded(f, hours)
  {
    var z := FillHourColumns(f, hours);
    r := MarkHours(z);
  }

  /** The first loop of `encode_hour_of_day`. */
  method FillHourColumns(f: Frame, hours: seq<string>) returns (r: Frame)
    requires Valid(f)
    ensures r == ZeroFill(f, hours)
  {
    r := f;
    for k := 0 to |hours|
      invariant r == ZeroFill(f, hours[..k])
    {
      ZeroFillPrefix(f, hours, k);
      r := Assign(r, hours[k], Zeros(f.n));
    }
    assert hours[..|hours|] == hours;
  }

  /** The row loop of `encode_hour_of_day`, over the zero-filled table. */
  method MarkHours(z: Frame) returns (r: Frame)
    requires Valid(z)
    ensures r == MarkedRows(z)
  {
    r := z;
    var i := 0;
    while i < r.n
      invariant 0 <= i <= z.n
      invariant r.n == z.n && r.names == z.names && r.cols.Keys == z.cols.Keys
      invariant forall j :: 0 <= j < i ==> RowHour(z, j).Some?
      invariant forall c :: c in r.cols ==> c in z.cols && |r.cols[c]| == z.n && r.cols[c] == MarkedColumn(z, i, c)
    {
      if "hour_of_day" !in r.cols {
        break;
      }
      var hour := HourOf(r.cols["hour_of_day"][i]);
      if hour.None? {
        break;
      }
      var name := HourName(hour.value);
      MarkRow(z, r.cols, i);
      if name in r.cols {
        r := r.(cols := r.cols[name := r.cols[name][i := Num(1.0)]]);
      }
      i := i + 1;
    }
    EncodedRowsAt(z, 0, i);
    assert r.cols == map c | c in z.cols :: MarkedColumn(z, i, c);
  }

  /** The hour the encoder recorded for row `j`, if the loop completed it. */
  function EncodedHour(f: Frame, hours: seq<string>, j: nat): Option<int>
    requires Valid(f) && j < f.n
  {
    var z := ZeroFill(f, hours);
    if j < EncodedRows(z, 0) then RowHour(z, j) else None
  }

  function HasHourPrefix(c: string): bool
  {
    |c| >= 5 && c[..5] == "hour_"
  }

  /** After `encode_hour_of_day` every predeclared hour column exists, and
      no other column is added; columns that are not hour columns keep their
      values, and the row count and column order of the input are kept. */
  lemma HourEncodingShape(f: Frame, hours: seq<string>)
    requires Valid(f)
    ensures var r := Encoded(f, hours);
      && Extends(f, r)
      && (forall c :: c in r.cols <==> c in f.cols || c in hours)
      && (forall c :: c in f.cols && c !in hours && !HasHourPrefix(c) ==> r.cols[c] == f.cols[c])
  {
    var z := ZeroFill(f, hours);
    var stop := EncodedRows(z, 0);
    var r := Encoded(f, hours);
    ZeroFillColumns(f, hours);
    ZeroFillExtends(f, hours);
    assert Valid(r) by {
      forall c | c in r.cols ensures |r.cols[c]| == r.n {
        assert r.cols[c] == MarkedColumn(z, stop, c);
      }
    }
    forall c | c in f.cols && c !in hours && !HasHourPrefix(c)
      ensures r.cols[c] == f.cols[c]
    {
      assert r.cols[c] == MarkedColumn(z, stop, c);
      forall k | 0 <= k < z.n ensures !Marks(z, stop, c, k) {
        if RowHour(z, k).Some? {
          assert HourName(RowHour(z, k).value)[..5] == "hour_";
        }
      }
    }
  }

  /** At a row whose hour h was read, the predeclared column equal to
      `hour_h` holds 1 and every other predeclared one 0; at a row the loop
      did not complete, all of them are 0. */
  lemma HourEncodingColumns(f: Frame, hours: seq<string>, j: nat)
    requires Valid(f) && j < f.n
    ensures var r := Encoded(f, hours);
      forall h :: h in hours ==>
        h in r.cols &&
        r.cols[h][j] == if EncodedHour(f, hours, j).Some? && HourName(EncodedHour(f, hours, j).value) == h
                        then Num(1.0) else Num(0.0)
  {
    var z := ZeroFill(f, hours);
    var stop := EncodedRows(z, 0);
    var r := Encoded(f, hours);
    ZeroFillColumns(f, hours);
    forall h | h in hours
      ensures r.cols[h][j] == if EncodedHour(f, hours, j).Some? && HourName(EncodedHour(f, hours, j).value) == h
                              then Num(1.0) else Num(0.0)
    {
      assert r.cols[h] == MarkedColumn(z, stop, h);
    }
  }

  /** One-hot: at any row at most one predeclared hour column holds 1, and a
      row whose hour names no predeclared column has all of them at 0. */
  lemma HourEncodingOneHot(f: Frame, hours: seq<string>, j: nat)
    requires Valid(f) && j < f.n
    ensures var r := Encoded(f, hours);
      && (forall h :: h in hours ==> h in r.cols)
      && (forall h1, h2 :: h1 in hours && h2 in hours && r.cols[h1][j] == Num(1.0) && r.cols[h2][j] == Num(1.0) ==> h1 == h2)
      && (EncodedHour(f, hours, j).Some? && HourName(EncodedHour(f, hours, j).value) !in hours ==>
            forall h :: h in hours ==> r.cols[h][j] == Num(0.0))
  {
    HourEncodingColumns(f, hours, j);
  }

  /** When `hour_of_day` exists, is not itself predeclared, and is defined on
      every row, the loop completes every row and the recorded hour of row j
      is `int(hour_of_day[j])`. */
  lemma HourEncodingCompletes(f: Frame, hours: seq<string>, j: nat)
    requires Valid(f) && j < f.n
    requires "hour_of_day" in f.cols && "hour_of_day" !in hours
    requires forall k :: 0 <= k < f.n ==> f.cols["hour_of_day"][k] != Missing
    ensures EncodedHour(f, hours, j) == HourOf(f.cols["hour_of_day"][j])
    ensures EncodedHour(f, hours, j).Some?
  {
    var z := ZeroFill(f, hours);
    ZeroFillColumns(f, hours);
    EncodedRowsAt(z, 0, z.n);
  }

  // ---------------------------------------------------------------------
  // The two pipelines and the top level

  function FullChannelFeatures(f: Frame, cfg: FeatureConfig, sqrt: real -> real): (r: Frame)
    requires Valid(f)
    ensures Valid(r) && r.n == f.n
  {
    var withPrice := CalculateRollingStats(f, "price", cfg, sqrt);
    var withSize := CalculateRollingStats(withPrice, "size", cfg, sqrt);
    Encoded(AddCancellationRatio(CalculateOrderFlowImbalance(withSize)), cfg.hours)
  }

  /** `extract_full_channel_features`: rolling stats of price, then of size,
      order-flow imbalance, cancellation ratio, hour encoding. */
  method ExtractFullChannelFeatures(f: Frame, cfg: FeatureConfig, sqrt: real -> real) returns (r: Frame)
    requires Valid(f)
    ensures r == FullChannelFeatures(f, cfg, sqrt)
  {
    r := CalculateRollingStats(f, "price", cfg, sqrt);
    r := CalculateRollingStats(r, "size", cfg, sqrt);
    r := CalculateOrderFlowImbalance(r);
    r := AddCancellationRatio(r);
    r := EncodeHourOfDay(r, cfg.hours);
  }

  function TickerFeatures(f: Frame, cfg: FeatureConfig, sqrt: real -> real): (r: Frame)
    requires Valid(f)
    ensures r.n == f.n
  {
    Encoded(CalculateRollingStats(MarketSpread(f), "last_size", cfg, sqrt), cfg.hours)
  }

  /** `extract_ticker_features`: spread, rolling stats of last_size, hour
      encoding. */
  method ExtractTickerFeatures(f: Frame, cfg: FeatureConfig, sqrt: real -> real) returns (r: Frame)
    requires Valid(f)
    ensures r == TickerFeatures(f, cfg, sqrt)
  {
    r := MarketSpread(f);
    r := CalculateRollingStats(r, "last_size", cfg, sqrt);
    r := EncodeHourOfDay(r, cfg.hours);
  }

  /** The keys `add_cancellation_ratio` leaves: every input column but the
      helper survives, the ratio is added when both inputs exist, and when
      the helper name is free the table is only extended. */
  lemma CancellationRatioKeys(f: Frame)
    requires Valid(f)
    ensures var r := AddCancellationRatio(f);
      && (forall x :: x in f.cols && x != "type_received_adjusted" ==> x in r.cols)
      && ("type_received" in f.cols && "reason_canceled" in f.cols ==> "cancel_to_received_ratio" in r.cols)
      && ("type_received_adjusted" !in f.cols ==> Extends(f, r))
  {
    if "type_received" in f.cols && "reason_canceled" in f.cols {
      CancellationRatioPreserves(f);
      var g := Assign(f, "type_received_adjusted", AdjustedColumn(f.cols["type_received"]));
      var ratio := RatioColumn(g.cols["reason_canceled"], g.cols["type_received_adjusted"]);
      assert "cancel_to_received_ratio" in Assign(g, "cancel_to_received_ratio", ratio).cols;
    } else if "type_received" in f.cols {
      CancellationRatioPartialFailure(f);
    }
  }

  /** Order-flow imbalance followed by the cancellation ratio keeps every
      column but the helper and adds the imbalance and the ratio when their
      inputs exist. */
  lemma FlowAndRatioColumns(b: Frame)
    requires Valid(b)
    ensures var d := AddCancellationRatio(CalculateOrderFlowImbalance(b));
      && Valid(d) && d.n == b.n
      && (forall x :: x in b.cols && x != "type_received_adjusted" ==> x in d.cols)
      && ("size" in b.cols && "side_buy" in b.cols ==> "order_flow_imbalance" in d.cols)
      && ("type_received" in b.cols && "reason_canceled" in b.cols ==> "cancel_to_received_ratio" in d.cols)
      && ("type_received_adjusted" !in b.cols ==> Extends(b, d))
  {
    var c := CalculateOrderFlowImbalance(b);
    OrderFlowImbalanceColumns(b);
    CancellationRatioKeys(c);
    var adj := "type_received_adjusted";
    if adj !in b.cols {
      assert adj !in c.cols;
      ExtendsTransitive(b, c, AddCancellationRatio(c));
    }
  }

  /** The full-channel table keeps its rows and gains every derived column
      whose inputs it has: the rolling statistics of price and size, the
      imbalance, the cancellation ratio and every hour column. When the
      helper name `type_received_adjusted` is free, the input columns keep
      their order and new ones are appended. */
  lemma FullChannelSchema(f: Frame, cfg: FeatureConfig, sqrt: real -> real)
    requires Valid(f)
    ensures var r := FullChannelFeatures(f, cfg, sqrt);
      && Valid(r) && r.n == f.n
      && (forall h :: h in cfg.hours ==> h in r.cols)
      && ("price" in f.cols ==> ConfiguredTargets("price", cfg) <= r.cols.Keys)
      && ("size" in f.cols ==> ConfiguredTargets("size", cfg) <= r.cols.Keys)
      && ("size" in f.cols && "side_buy" in f.cols ==> "order_flow_imbalance" in r.cols)
      && ("type_received" in f.cols && "reason_canceled" in f.cols ==> "cancel_to_received_ratio" in r.cols)
      && ("type_received_adjusted" !in f.cols ==> Extends(f, r))
  {
    var a := CalculateRollingStats(f, "price", cfg, sqrt);
    var b := CalculateRollingStats(a, "size", cfg, sqrt);
    var d := AddCancellationRatio(CalculateOrderFlowImbalance(b));
    RollingStatsColumns(f, "price", cfg, sqrt);
    RollingStatsColumns(a, "size", cfg, sqrt);
    ExtendsTransitive(f, a, b);
    var adj := "type_received_adjusted";
    assert adj[0] == 't' && "price"[0] == 'p' && "size"[0] == 's';
    assert adj[..5] != "price" && adj[..4] != "size";
    NotATarget("price", cfg, "size");
    NotATarget("price", cfg, adj);
    NotATarget("size", cfg, adj);
    assert adj in b.cols ==> adj in f.cols;
    FlowAndRatioColumns(b);
    HourEncodingShape(d, cfg.hours);
    if adj !in f.cols {
      ExtendsTransitive(f, b, d);
      ExtendsTransitive(f, d, FullChannelFeatures(f, cfg, sqrt));
    }
  }

  /** The ticker table keeps its rows and the order of its columns, and gains
      the spread (when it has both quotes), the rolling statistics of
      last_size (when it has that column) and every hour column. */
  lemma TickerSchema(f: Frame, cfg: FeatureConfig, sqrt: real -> real)
    requires Valid(f)
    ensures var r := TickerFeatures(f, cfg, sqrt);
      && Extends(f, r)
      && (forall h :: h in cfg.hours ==> h in r.cols)
      && (SpreadComputable(f) ==> "spread" in r.cols)
      && ("last_size" in f.cols ==> ConfiguredTargets("last_size", cfg) <= r.cols.Keys)
  {
    var a := MarketSpread(f);
    var b := CalculateRollingStats(a, "last_size", cfg, sqrt);
    RollingStatsColumns(a, "last_size", cfg, sqrt);
    HourEncodingShape(b, cfg.hours);
    ExtendsTransitive(f, a, b);
    ExtendsTransitive(f, b, TickerFeatures(f, cfg, sqrt));
  }

  /** What `extract_features` hands to `save_data`: nothing when loading
      failed, otherwise both enhanced tables. Neither pipeline returns None,
      so once loading succeeds the save always follows both passes. */
  datatype Outcome = LoadFailed | Saved(fullChannel: Frame, ticker: Frame)

  method ExtractFeatures(loaded: Option<(Frame, Frame)>, cfg: FeatureConfig, sqrt: real -> real) returns (out: Outcome)
    requires loaded.Some? ==> Valid(loaded.value.0) && Valid(loaded.value.1)
    ensures loaded.None? <==> out == LoadFailed
    ensures loaded.Some? ==> out == Saved(FullChannelFeatures(loaded.value.0, cfg, sqrt), TickerFeatures(loaded.value.1, cfg, sqrt))
  {
    if loaded.None? {
      return LoadFailed;
    }
    var (fullChannel, ticker) := loaded.value;
    var fullChannelEnhanced := ExtractFullChannelFeatures(fullChannel, cfg, sqrt);
    var tickerEnhanced := ExtractTickerFeatures(ticker, cfg, sqrt);
    out := Saved(fullChannelEnhanced, tickerEnhanced);
  }
}
