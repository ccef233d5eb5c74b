/*
  The hyperparameter search driver: the trial evaluator's configuration
  prologue and result row, the two fixed phases of trial combinations, the
  filter that drops failed trials and the ranking by descending reward.

  The trial itself (environment, policy network, training, evaluation) is
  the parameter `run`: given the configuration it reads, it yields the total
  reward, or None when it raised.
*/
module Hypertuning {
  import opened Wrappers

  /** A feature-weights preset: feature name to weight. */
  type Weights = map<string, real>

  /** One trial's arguments: learning rate, batch size, epochs, spoofing
      threshold and the key of the feature-weights preset. */
  datatype Combination = Combination(
    learningRate: real,
    batchSize: int,
    epochs: int,
    spoofingThreshold: real,
    featureWeightsKey: string)

  /** One row of the results table, columns in the table's order. */
  datatype TrialResult = TrialResult(
    totalReward: real,
    learningRate: real,
    batchSize: int,
    epochs: int,
    spoofingThreshold: real,
    featureWeights: string)

  /** The trial arguments a result row echoes. */
  function Arguments(t: TrialResult): Combination
  {
    Combination(t.learningRate, t.batchSize, t.epochs, t.spoofingThreshold, t.featureWeights)
  }

  /** The global configuration as a value: the fields a trial writes, the
      preset table it reads, and fields no trial touches. */
  datatype Settings = Settings(
    learningRate: real,
    batchSize: int,
    nEpochs: int,
    spoofingThreshold: real,
    featureWeights: Weights,
    featureWeightsConfigs: map<string, Weights>,
    modelPath: string,
    outputPath: string)

  /** What `evaluate_hyperparameters` does with its caller: the preset lookup
      raises before the guarded block (so the exception reaches the caller),
      or it returns the result row or None. */
  datatype Evaluation = Raised | Returned(result: Option<TrialResult>)

  // ---------------------------------------------------------------------
  // evaluate_hyperparameters

  /** The configuration after the prologue: the four scalar fields take the
      trial's values, and the feature weights take the named preset when it
      exists (when it does not, the lookup raises after the four writes). */
  function Configured(s: Settings, c: Combination): (r: Settings)
    ensures r.featureWeightsConfigs == s.featureWeightsConfigs
    ensures r.modelPath == s.modelPath && r.outputPath == s.outputPath
  {
    s.(learningRate := c.learningRate,
       batchSize := c.batchSize,
       nEpochs := c.epochs,
       spoofingThreshold := c.spoofingThreshold,
       featureWeights := if c.featureWeightsKey in s.featureWeightsConfigs
                         then s.featureWeightsConfigs[c.featureWeightsKey]
                         else s.featureWeights)
  }

  function Evaluate(s: Settings, c: Combination, run: Settings -> Option<real>): (e: Evaluation)
    ensures e.Raised? <==> c.featureWeightsKey !in s.featureWeightsConfigs
  {
    if c.featureWeightsKey !in s.featureWeightsConfigs then Raised
    else
      match run(Configured(s, c))
      case None => Returned(None)
      case Some(reward) =>
        Returned(Some(TrialResult(reward, c.learningRate, c.batchSize, c.epochs,
                                  c.spoofingThreshold, c.featureWeightsKey)))
  }

  /** The prologue overwrites exactly five entries: the three PPO settings,
      the spoofing threshold and the feature weights; the preset table and
      the paths are untouched. */
  lemma ConfiguredWritesFive(s: Settings, c: Combination)
    requires c.featureWeightsKey in s.featureWeightsConfigs
    ensures var t := Configured(s, c);
      && t.learningRate == c.learningRate && t.batchSize == c.batchSize
      && t.nEpochs == c.epochs && t.spoofingThreshold == c.spoofingThreshold
      && t.featureWeights == s.featureWeightsConfigs[c.featureWeightsKey]
      && t == s.(learningRate := t.learningRate, batchSize := t.batchSize, nEpochs := t.nEpochs,
                 spoofingThreshold := t.spoofingThreshold, featureWeights := t.featureWeights)
  {
  }

  /** The trial raises exactly when the preset key is missing; otherwise a
      successful trial returns the reward the trial computed under the new
      configuration followed by its five arguments, unchanged and in order,
      and a failed one returns None. */
  lemma EvaluateResult(s: Settings, c: Combination, run: Settings -> Option<real>)
    ensures Evaluate(s, c, run).Raised? <==> c.featureWeightsKey !in s.featureWeightsConfigs
    ensures Evaluate(s, c, run) == Returned(None) <==>
              c.featureWeightsKey in s.featureWeightsConfigs && run(Configured(s, c)).None?
    ensures Evaluate(s, c, run).Returned? && Evaluate(s, c, run).result.Some? ==>
              var t := Evaluate(s, c, run).result.value;
              Arguments(t) == c && run(Configured(s, c)) == Some(t.totalReward)
  {
  }

  /** The process-wide configuration the trials share. */
  class Config {
    var learningRate: real
    var batchSize: int
    var nEpochs: int
    var spoofingThreshold: real
    var featureWeights: Weights
    var featureWeightsConfigs: map<string, Weights>
    var modelPath: string
    var outputPath: string

    function Snapshot(): Settings
      reads this
    {
      Settings(learningRate, batchSize, nEpochs, spoofingThreshold, featureWeights,
               featureWeightsConfigs, modelPath, outputPath)
    }

    constructor(s: Settings)
      ensures Snapshot() == s
    {
      learningRate := s.learningRate;
      batchSize := s.batchSize;
      nEpochs := s.nEpochs;
      spoofingThreshold := s.spoofingThreshold;
      featureWeights := s.featureWeights;
      featureWeightsConfigs := s.featureWeightsConfigs;
      modelPath := s.modelPath;
      outputPath := s.outputPath;
    }

    /** `evaluate_hyperparameters`: write the five fields, then run the
        trial under the new configuration. */
    method EvaluateHyperparameters(c: Combination, run: Settings -> Option<real>) returns (e: Evaluation)
      modifies this`learningRate, this`batchSize, this`nEpochs, this`spoofingThreshold, this`featureWeights
      ensures Snapshot() == Configured(old(Snapshot()), c)
      ensures e == Evaluate(old(Snapshot()), c, run)
    {
      learningRate := c.learningRate;
      batchSize := c.batchSize;
      nEpochs := c.epochs;
      spoofingThreshold := c.spoofingThreshold;
      if c.featureWeightsKey !in featureWeightsConfigs {
        return Raised;
      }
      featureWeights := featureWeightsConfigs[c.featureWeightsKey];
      var reward := run(Snapshot());
      if reward.None? {
        return Returned(None);
      }
      e := Returned(Some(TrialResult(reward.value, c.learningRate, c.batchSize, c.epochs,
                                     c.spoofingThreshold, c.featureWeightsKey)));
    }

    /** `tune_hyperparameters`: the two phase-1 trials read the current
        configuration, the ten phase-2 trials use their listed values; any
        raise aborts the search with no table; otherwise the table is the
        successful rows ranked by descending reward. */
    method TuneHyperparameters(run: Settings -> Option<real>) returns (table: Option<seq<TrialResult>>)
      modifies this`learningRate, this`batchSize, this`nEpochs, this`spoofingThreshold, this`featureWeights
      ensures table == Tune(old(Snapshot()), run)
      ensures Snapshot() == RunTrials(old(Snapshot()), Schedule(old(Snapshot())), run).settings
    {
      ghost var s0 := Snapshot();
      ghost var schedule := Schedule(s0);
      var results: seq<Option<TrialResult>> := [];
      var phase1Keys := ["default", "no_rolling_stats"];
      for k := 0 to |phase1Keys|
        invariant var b := RunTrials(s0, schedule[..k], run);
          && !b.aborted && Snapshot() == b.settings && results == b.results
        invariant learningRate == s0.learningRate && batchSize == s0.batchSize
        invariant nEpochs == s0.nEpochs && spoofingThreshold == s0.spoofingThreshold
      {
        var c := Combination(learningRate, batchSize, nEpochs, spoofingThreshold, phase1Keys[k]);
        assert c == schedule[k];
        RunTrialsStep(s0, schedule, k, run);
        var e := EvaluateHyperparameters(c, run);
        if e.Raised? {
          RunTrialsAbortSticks(s0, schedule, k + 1, run);
          return None;
        }
        results := results + [e.result];
      }
      var selected := Phase2();
      for k := 0 to |selected|
        invariant var b := RunTrials(s0, schedule[..2 + k], run);
          && !b.aborted && Snapshot() == b.settings && results == b.results
      {
        assert selected[k] == schedule[2 + k];
        RunTrialsStep(s0, schedule, 2 + k, run);
        var e := EvaluateHyperparameters(selected[k], run);
        if e.Raised? {
          RunTrialsAbortSticks(s0, schedule, 2 + k + 1, run);
          return None;
        }
        results := results + [e.result];
      }
      assert schedule[..12] == schedule;
      table := Some(SortByReward(DropFailed(results)));
    }
  }

  // ---------------------------------------------------------------------
  // The trial combinations

  /** Phase 1: the same current learning rate, batch size, epochs and
      threshold with the two feature presets (the literals beside each key
      in the source list are never used). */
  function Phase1(s: Settings): seq<Combination>
  {
    [Combination(s.learningRate, s.batchSize, s.nEpochs, s.spoofingThreshold, "default"),
     Combination(s.learningRate, s.batchSize, s.nEpochs, s.spoofingThreshold, "no_rolling_stats")]
  }

  /** Phase 2: ten listed PPO settings, all on the default preset. */
  function Phase2(): (cs: seq<Combination>)
    ensures |cs| == 10
  {
    [Combination(0.0001, 128, 20, 0.8, "default"),
     Combination(0.0005, 128, 20, 0.8, "default"),
     Combination(0.001, 64, 20, 0.8, "default"),
     Combination(0.0005, 64, 20, 0.8, "default"),
     Combination(0.001, 128, 20, 0.7, "default"),
     Combination(0.0005, 128, 20, 0.7, "default"),
     Combination(0.001, 64, 20, 0.7, "default"),
     Combination(0.0005, 64, 20, 0.7, "default"),
     Combination(0.0001, 128, 10, 0.8, "default"),
     Combination(0.0001, 64, 10, 0.8, "default")]
  }

  /** Every trial of the search, in submission order. */
  function Schedule(s: Settings): (cs: seq<Combination>)
    ensures |cs| == 12
  {
    Phase1(s) + Phase2()
  }

  /** Twelve trials: two phase-1 trials on the current settings with keys
      `default` and `no_rolling_stats`, then the ten phase-2 tuples, all with
      key `default`. */
  lemma ScheduleShape(s: Settings)
    ensures var cs := Schedule(s);
      && cs[0].featureWeightsKey == "default" && cs[1].featureWeightsKey == "no_rolling_stats"
      && (forall k :: 0 <= k < 2 ==>
            cs[k].learningRate == s.learningRate && cs[k].batchSize == s.batchSize
            && cs[k].epochs == s.nEpochs && cs[k].spoofingThreshold == s.spoofingThreshold)
      && (forall k :: 2 <= k < 12 ==> cs[k] == Phase2()[k - 2] && cs[k].featureWeightsKey == "default")
      && (forall k :: 0 <= k < 12 ==> cs[k].featureWeightsKey in {"default", "no_rolling_stats"})
  {
  }

  // ---------------------------------------------------------------------
  // Running the trials one after another

  /** The state after some trials: the configuration, the value each
      returned, and whether one raised (which ends the search). */
  datatype Batch = Batch(settings: Settings, results: seq<Option<TrialResult>>, aborted: bool)

  function RunTrials(s: Settings, cs: seq<Combination>, run: Settings -> Option<real>): (b: Batch)
    ensures !b.aborted ==> |b.results| == |cs|
    ensures b.settings.featureWeightsConfigs == s.featureWeightsConfigs
    decreases |cs|
  {
    if cs == [] then Batch(s, [], false)
    else
      var b := RunTrials(s, cs[..|cs| - 1], run);
      if b.aborted then b
      else
        var c := cs[|cs| - 1];
        var e := Evaluate(b.settings, c, run);
        if e.Raised? then Batch(Configured(b.settings, c), b.results, true)
        else Batch(Configured(b.settings, c), b.results + [e.result], false)
  }

  lemma RunTrialsStep(s: Settings, cs: seq<Combination>, k: nat, run: Settings -> Option<real>)
    requires k < |cs|
    ensures var b := RunTrials(s, cs[..k], run);
      var e := Evaluate(b.settings, cs[k], run);
      RunTrials(s, cs[..k + 1], run)
      == if b.aborted then b
         else if e.Raised? then Batch(Configured(b.settings, cs[k]), b.results, true)
         else Batch(Configured(b.settings, cs[k]), b.results + [e.result], false)
  {
    assert cs[..k + 1][..k] == cs[..k];
  }

  /** Once a trial raises, no later trial runs. */
  lemma {:induction false} RunTrialsAbortSticks(s: Settings, cs: seq<Combination>, k: nat, run: Settings -> Option<real>)
    requires k <= |cs| && RunTrials(s, cs[..k], run).aborted
    ensures RunTrials(s, cs, run) == RunTrials(s, cs[..k], run)
    decreases |cs| - k
  {
    if k < |cs| {
      RunTrialsStep(s, cs, k, run);
      RunTrialsAbortSticks(s, cs, k + 1, run);
    } else {
      assert cs[..k] == cs;
    }
  }

  /** The search aborts exactly when some trial names a preset the table
      lacks (no trial changes the preset table). */
  lemma {:induction false} RunTrialsAborts(s: Settings, cs: seq<Combination>, run: Settings -> Option<real>)
    ensures RunTrials(s, cs, run).aborted <==>
              exists k :: 0 <= k < |cs| && cs[k].featureWeightsKey !in s.featureWeightsConfigs
    decreases |cs|
  {
    if cs != [] {
      var init := cs[..|cs| - 1];
      RunTrialsAborts(s, init, run);
      if exists k :: 0 <= k < |init| && init[k].featureWeightsKey !in s.featureWeightsConfigs {
        var k :| 0 <= k < |init| && init[k].featureWeightsKey !in s.featureWeightsConfigs;
        assert cs[k] == init[k];
      }
      if exists k :: 0 <= k < |cs| && cs[k].featureWeightsKey !in s.featureWeightsConfigs {
        var k :| 0 <= k < |cs| && cs[k].featureWeightsKey !in s.featureWeightsConfigs;
        if k < |init| {
          assert init[k] == cs[k];
        }
      }
    }
  }

  /** Without an abort, the i-th returned value belongs to the i-th trial: a
      row echoes that trial's combination. */
  lemma {:induction false} RunTrialsRows(s: Settings, cs: seq<Combination>, run: Settings -> Option<real>)
    ensures var b := RunTrials(s, cs, run);
      !b.aborted ==> forall i :: 0 <= i < |cs| && b.results[i].Some? ==> Arguments(b.results[i].value) == cs[i]
    decreases |cs|
  {
    if cs != [] {
      var init := cs[..|cs| - 1];
      var b := RunTrials(s, init, run);
      RunTrialsRows(s, init, run);
      if !b.aborted {
        EvaluateResult(b.settings, cs[|cs| - 1], run);
      }
    }
  }

  /** Every trial that runs returns a value when the trial never fails. */
  lemma {:induction false} RunTrialsAllSucceed(s: Settings, cs: seq<Combination>, run: Settings -> Option<real>)
    requires forall t: Settings :: run(t).Some?
    ensures var b := RunTrials(s, cs, run);
      !b.aborted ==> forall i :: 0 <= i < |b.results| ==> b.results[i].Some?
    decreases |cs|
  {
    if cs != [] {
      RunTrialsAllSucceed(s, cs[..|cs| - 1], run);
    }
  }

  // ---------------------------------------------------------------------
  // Filter and ranking

  /** `[res for res in results if res is not None]`. */
  function DropFailed(rs: seq<Option<TrialResult>>): (r: seq<TrialResult>)
    ensures |r| <= |rs|
  {
    if rs == [] then []
    else if rs[0].None? then DropFailed(rs[1..])
    else [rs[0].value] + DropFailed(rs[1..])
  }

  /** The number of trials that returned a row. */
  function CountSome(rs: seq<Option<TrialResult>>): (n: nat)
    ensures n <= |rs|
  {
    if rs == [] then 0 else (if rs[0].Some? then 1 else 0) + CountSome(rs[1..])
  }

  /** The filtered list holds exactly the returned rows. */
  lemma {:induction false} DropFailedMembers(rs: seq<Option<TrialResult>>)
    ensures forall t :: t in DropFailed(rs) <==> Some(t) in rs
  {
    if rs != [] {
      DropFailedMembers(rs[1..]);
      assert rs == [rs[0]] + rs[1..];
    }
  }

  /** Filtering the concatenation of the two phases' results is the phase-1
      rows followed by the phase-2 rows. */
  lemma {:induction false} DropFailedConcat(a: seq<Option<TrialResult>>, b: seq<Option<TrialResult>>)
    ensures DropFailed(a + b) == DropFailed(a) + DropFailed(b)
  {
    if a != [] {
      assert (a + b)[0] == a[0] && (a + b)[1..] == a[1..] + b;
      DropFailedConcat(a[1..], b);
      if a[0].Some? {
        assert DropFailed(a + b) == [a[0].value] + (DropFailed(a[1..]) + DropFailed(b));
        assert DropFailed(a) == [a[0].value] + DropFailed(a[1..]);
      } else {
        assert DropFailed(a + b) == DropFailed(a[1..] + b);
      }
    } else {
      assert a + b == b;
    }
  }

  /** The filtered length is the number of returned rows. */
  lemma {:induction false} DropFailedLength(rs: seq<Option<TrialResult>>)
    ensures |DropFailed(rs)| == CountSome(rs)
  {
    if rs != [] {
      DropFailedLength(rs[1..]);
    }
  }

  /** A filtered list with every trial successful keeps every row. */
  lemma {:induction false} DropFailedAllSome(rs: seq<Option<TrialResult>>)
    requires forall i :: 0 <= i < |rs| ==> rs[i].Some?
    ensures |DropFailed(rs)| == |rs|
  {
    if rs != [] {
      DropFailedAllSome(rs[1..]);
    }
  }

  predicate NonIncreasing(rs: seq<TrialResult>)
  {
    forall i, j :: 0 <= i < j < |rs| ==> rs[i].totalReward >= rs[j].totalReward
  }

  /** Place `t` before the first row whose reward it reaches. */
  function Insert(t: TrialResult, rs: seq<TrialResult>): (r: seq<TrialResult>)
    ensures |r| == |rs| + 1
  {
    if rs == [] || t.totalReward >= rs[0].totalReward then [t] + rs
    else [rs[0]] + Insert(t, rs[1..])
  }

  /** `sort_values(by='total_reward', ascending=False)`. */
  function SortByReward(rs: seq<TrialResult>): (r: seq<TrialResult>)
    ensures |r| == |rs|
  {
    if rs == [] then [] else Insert(rs[0], SortByReward(rs[1..]))
  }

  lemma {:induction false} InsertPermutes(t: TrialResult, rs: seq<TrialResult>)
    ensures multiset(Insert(t, rs)) == multiset(rs) + multiset{t}
  {
    if rs != [] && t.totalReward < rs[0].totalReward {
      InsertPermutes(t, rs[1..]);
      assert rs == [rs[0]] + rs[1..];
    }
  }

  lemma {:induction false} InsertSorted(t: TrialResult, rs: seq<TrialResult>)
    requires NonIncreasing(rs)
    ensures NonIncreasing(Insert(t, rs))
  {
    if rs != [] && t.totalReward < rs[0].totalReward {
      InsertSorted(t, rs[1..]);
      InsertPermutes(t, rs[1..]);
      var r := Insert(t, rs);
      var tail := Insert(t, rs[1..]);
      forall j | 0 < j < |r|
        ensures rs[0].totalReward >= r[j].totalReward
      {
        assert r[j] == tail[j - 1];
        assert r[j] in multiset(tail);
        if r[j] != t {
          assert r[j] in multiset(rs[1..]);
          var k :| 0 <= k < |rs[1..]| && rs[1..][k] == r[j];
          assert rs[k + 1] == r[j];
        }
      }
    }
  }

  /** The ranked table is a permutation of the filtered rows, ordered by
      non-increasing reward. */
  lemma {:induction false} SortByRewardSpec(rs: seq<TrialResult>)
    ensures multiset(SortByReward(rs)) == multiset(rs)
    ensures NonIncreasing(SortByReward(rs))
  {
    if rs != [] {
      SortByRewardSpec(rs[1..]);
      InsertPermutes(rs[0], SortByReward(rs[1..]));
      InsertSorted(rs[0], SortByReward(rs[1..]));
      assert rs == [rs[0]] + rs[1..];
    }
  }

  // ---------------------------------------------------------------------
  // The search as a whole

  /** The table `tune_hyperparameters` writes, or None when a trial raised
      and no table is written. */
  function Tune(s: Settings, run: Settings -> Option<real>): (t: Option<seq<TrialResult>>)
    ensures t.Some? ==> |t.value| <= 12
  {
    var b := RunTrials(s, Schedule(s), run);
    if b.aborted then None else Some(SortByReward(DropFailed(b.results)))
  }

  /** A table is written exactly when both phase-1 presets exist; it then
      holds precisely the rows of the trials that returned one (each echoing
      its own trial's combination), at most twelve, ranked by non-increasing
      reward. */
  lemma TuneSpec(s: Settings, run: Settings -> Option<real>)
    ensures Tune(s, run).Some? <==>
              "default" in s.featureWeightsConfigs && "no_rolling_stats" in s.featureWeightsConfigs
    ensures Tune(s, run).Some? ==>
              var b := RunTrials(s, Schedule(s), run);
              var table := Tune(s, run).value;
              && multiset(table) == multiset(DropFailed(b.results))
              && NonIncreasing(table)
              && |table| <= 12
              && (forall t :: t in table <==> Some(t) in b.results)
              && (forall t :: t in table ==> Arguments(t) in Schedule(s))
  {
    var cs := Schedule(s);
    var b := RunTrials(s, cs, run);
    ScheduleShape(s);
    RunTrialsAborts(s, cs, run);
    if "default" !in s.featureWeightsConfigs {
      assert cs[0].featureWeightsKey !in s.featureWeightsConfigs;
    } else if "no_rolling_stats" !in s.featureWeightsConfigs {
      assert cs[1].featureWeightsKey !in s.featureWeightsConfigs;
    }
    if !b.aborted {
      var kept := DropFailed(b.results);
      var table := SortByReward(kept);
      SortByRewardSpec(kept);
      DropFailedMembers(b.results);
      DropFailedLength(b.results);
      RunTrialsRows(s, cs, run);
      forall t | t in table
        ensures t in kept && Arguments(t) in cs
      {
        assert t in multiset(table);
        assert Some(t) in b.results;
        var i :| 0 <= i < |b.results| && b.results[i] == Some(t);
      }
      forall t | t in kept
        ensures t in table
      {
        assert t in multiset(kept);
      }
      assert |table| == |multiset(table)| == |multiset(kept)| == |kept|;
    }
  }

  /** When both presets exist and no trial fails, the table has exactly
      twelve rows, in non-increasing reward order. */
  lemma TuneAllSucceed(s: Settings, run: Settings -> Option<real>)
    requires "default" in s.featureWeightsConfigs && "no_rolling_stats" in s.featureWeightsConfigs
    requires forall t: Settings :: run(t).Some?
    ensures Tune(s, run).Some? && |Tune(s, run).value| == 12 && NonIncreasing(Tune(s, run).value)
  {
    TuneSpec(s, run);
    var b := RunTrials(s, Schedule(s), run);
    RunTrialsAllSucceed(s, Schedule(s), run);
    DropFailedAllSome(b.results);
    SortByRewardSpec(DropFailed(b.results));
    assert |multiset(Tune(s, run).value)| == |multiset(DropFailed(b.results))|;
  }

  /** The phase-1 trials write back the values they read, so the second
      phase-1 trial sees the same scalar settings as the first. */
  lemma PhaseOneReadsInitialSettings(s: Settings, run: Settings -> Option<real>)
    ensures var b := RunTrials(s, Schedule(s)[..1], run);
      && b.settings.learningRate == s.learningRate && b.settings.batchSize == s.batchSize
      && b.settings.nEpochs == s.nEpochs && b.settings.spoofingThreshold == s.spoofingThreshold
  {
    RunTrialsStep(s, Schedule(s), 0, run);
    assert Schedule(s)[..0] == [];
  }
}
