/**
 * The per-label precision/recall calculation of calculate_metrics.py.
 *
 * Each observation pairs one ground-truth label with the model's prediction
 * string, a comma-separated list of labels. One pass over the observations
 * fills a defaulting map from label to (tp, fp, fn); a second pass emits one
 * report row per key in ascending label order.
 */
module Metrics {
  import opened PyStrings

  datatype Observation = Observation(groundTruth: string, predicted: string)

  /** The `{'tp', 'fp', 'fn'}` record kept per label. */
  datatype LabelStats = LabelStats(tp: nat, fp: nat, fn: nat)

  /** One row of the metric file: Label, Precision, Recall, TP, FP, FN. */
  datatype ReportRow = ReportRow(name: string, precision: real, recall: real, tp: nat, fp: nat, fn: nat)

  // ---------------------------------------------------------------- tokenising

  /**
   * `[p.strip() for p in pieces if p.strip()]`: the non-empty stripped pieces,
   * in order. Every token is non-empty and already stripped.
   */
  function StrippedNonEmpty(pieces: seq<string>): (tokens: seq<string>)
    ensures |tokens| <= |pieces|
    ensures forall i :: 0 <= i < |tokens| ==> tokens[i] != ""
    decreases |pieces|
  {
    if pieces == [] then []
    else
      var t := Strip(pieces[0]);
      if t != "" then [t] + StrippedNonEmpty(pieces[1..]) else StrippedNonEmpty(pieces[1..])
  }

  /** No piece that strips to something non-empty is lost. */
  lemma {:induction false} StrippedNonEmptyKeeps(pieces: seq<string>, k: nat)
    requires k < |pieces| && Strip(pieces[k]) != ""
    ensures Strip(pieces[k]) in StrippedNonEmpty(pieces)
    decreases |pieces|
  {
    if k > 0 {
      assert pieces[1..][k - 1] == pieces[k];
      StrippedNonEmptyKeeps(pieces[1..], k - 1);
    }
  }

  /** Every token is the strip of some piece. */
  lemma {:induction false} StrippedNonEmptyOrigin(pieces: seq<string>, i: nat) returns (k: nat)
    requires i < |StrippedNonEmpty(pieces)|
    ensures k < |pieces| && Strip(pieces[k]) == StrippedNonEmpty(pieces)[i]
    decreases |pieces|
  {
    var rest := StrippedNonEmpty(pieces[1..]);
    var t := Strip(pieces[0]);
    if t != "" {
      assert StrippedNonEmpty(pieces) == [t] + rest;
      if i == 0 {
        k := 0;
      } else {
        var k' := StrippedNonEmptyOrigin(pieces[1..], i - 1);
        k := k' + 1;
        assert StrippedNonEmpty(pieces)[i] == rest[i - 1];
        assert pieces[k] == pieces[1..][k'];
      }
    } else {
      assert StrippedNonEmpty(pieces) == rest;
      var k' := StrippedNonEmptyOrigin(pieces[1..], i);
      k := k' + 1;
      assert StrippedNonEmpty(pieces)[i] == rest[i];
      assert pieces[k] == pieces[1..][k'];
    }
  }

  /** `pred_list`: the tokens of a prediction string, none of them empty. */
  function Tokens(predicted: string): (tokens: seq<string>)
    ensures forall i :: 0 <= i < |tokens| ==> tokens[i] != ""
  {
    StrippedNonEmpty(Split(predicted, ','))
  }

  /** Every token is already stripped and holds no comma. */
  lemma TokensAreStripped(predicted: string, i: nat)
    requires i < |Tokens(predicted)|
    ensures Strip(Tokens(predicted)[i]) == Tokens(predicted)[i]
    ensures ',' !in Tokens(predicted)[i]
  {
    var pieces := Split(predicted, ',');
    var k := StrippedNonEmptyOrigin(pieces, i);
    StripIdempotent(pieces[k]);
    StripKeepsAbsence(pieces[k], ',');
  }

  /** No comma-separated piece that strips to something non-empty is lost. */
  lemma TokensKeepEveryPiece(predicted: string, k: nat)
    requires k < |Split(predicted, ',')| && Strip(Split(predicted, ',')[k]) != ""
    ensures Strip(Split(predicted, ',')[k]) in Tokens(predicted)
  {
    StrippedNonEmptyKeeps(Split(predicted, ','), k);
  }

  lemma StrippedNonEmptyCons(p: string, ps: seq<string>)
    ensures StrippedNonEmpty([p] + ps) == (if Strip(p) != "" then [Strip(p)] else []) + StrippedNonEmpty(ps)
  {
    assert ([p] + ps)[1..] == ps;
  }

  /** An empty prediction has no tokens. */
  lemma TokensOfEmpty()
    ensures Tokens("") == []
  {
    assert Strip("") == "" by {
      StripUnpadded("");
    }
    StrippedNonEmptyCons("", []);
  }

  /** A prediction naming one label is that one token. */
  lemma TokensOfOne(a: string)
    requires a != "" && ',' !in a && Unpadded(a)
    ensures Tokens(a) == [a]
  {
    SplitNoSeparator(a, ',');
    StripUnpadded(a);
    StrippedNonEmptyCons(a, []);
  }

  /** `"a, b"` is the two tokens `a` and `b`. */
  lemma TokensOfTwo(a: string, b: string)
    requires a != "" && ',' !in a && Unpadded(a)
    requires b != "" && ',' !in b && Unpadded(b)
    ensures Tokens(a + ", " + b) == [a, b]
  {
    var tail := " " + b;
    assert a + ", " + b == a + [','] + tail;
    SplitAfterPiece(a, tail, ',');
    SplitNoSeparator(tail, ',');
    assert Split(a + ", " + b, ',') == [a] + [tail];
    StripUnpadded(a);
    StripUnpadded(b);
    StripLeadingSpace(' ', b);
    StrippedNonEmptyCons(a, [tail]);
    StrippedNonEmptyCons(tail, []);
  }

  // ---------------------------------------------------------------- specification

  /** The vocabulary: every label that is the ground truth of some observation. */
  function Vocabulary(obs: seq<Observation>): set<string> {
    set i | 0 <= i < |obs| :: obs[i].groundTruth
  }

  predicate Hit(o: Observation, lbl: string) {
    o.groundTruth == lbl && lbl in Tokens(o.predicted)
  }

  predicate Miss(o: Observation, lbl: string) {
    o.groundTruth == lbl && lbl !in Tokens(o.predicted)
  }

  /** The number of observations whose ground truth is `lbl`. */
  function RowsLabelled(obs: seq<Observation>, lbl: string): nat
    decreases |obs|
  {
    if obs == [] then 0
    else RowsLabelled(obs[..|obs| - 1], lbl) + (if obs[|obs| - 1].groundTruth == lbl then 1 else 0)
  }

  /** True positives of `lbl`: observations of `lbl` whose prediction names it. */
  function TruePositives(obs: seq<Observation>, lbl: string): nat
    decreases |obs|
  {
    if obs == [] then 0
    else TruePositives(obs[..|obs| - 1], lbl) + (if Hit(obs[|obs| - 1], lbl) then 1 else 0)
  }

  /** False negatives of `lbl`: observations of `lbl` whose prediction misses it. */
  function FalseNegatives(obs: seq<Observation>, lbl: string): nat
    decreases |obs|
  {
    if obs == [] then 0
    else FalseNegatives(obs[..|obs| - 1], lbl) + (if Miss(obs[|obs| - 1], lbl) then 1 else 0)
  }

  /**
   * False positives one observation gives `lbl`: one per occurrence of `lbl`
   * among its tokens, when `lbl` is not its ground truth and is in the
   * vocabulary.
   */
  function FalsePositivesIn(o: Observation, vocab: set<string>, lbl: string): nat {
    FalsePositivesAmong(Tokens(o.predicted), o.groundTruth, vocab, lbl)
  }

  /** The false positives for `lbl` among `tokens` predicted for ground truth `gt`. */
  function FalsePositivesAmong(tokens: seq<string>, gt: string, vocab: set<string>, lbl: string): nat {
    if lbl != gt && lbl in vocab then multiset(tokens)[lbl] else 0
  }

  function FalsePositives(obs: seq<Observation>, vocab: set<string>, lbl: string): nat
    decreases |obs|
  {
    if obs == [] then 0
    else FalsePositives(obs[..|obs| - 1], vocab, lbl) + FalsePositivesIn(obs[|obs| - 1], vocab, lbl)
  }

  /** The counts of `lbl` over `obs`, false positives judged against `vocab`. */
  function StatsOf(obs: seq<Observation>, vocab: set<string>, lbl: string): LabelStats {
    LabelStats(TruePositives(obs, lbl), FalsePositives(obs, vocab, lbl), FalseNegatives(obs, lbl))
  }

  /** The statistics the pass must produce: one entry per vocabulary label. */
  function ExpectedStats(obs: seq<Observation>): map<string, LabelStats> {
    map l | l in Vocabulary(obs) :: StatsOf(obs, Vocabulary(obs), l)
  }

  /** What one observation adds to the counts of `lbl`. */
  function Contribution(o: Observation, vocab: set<string>, lbl: string): LabelStats {
    ContributionOf(o.groundTruth, Tokens(o.predicted), vocab, lbl)
  }

  /** What a row with ground truth `gt` and prediction tokens `tokens` adds to `lbl`. */
  function ContributionOf(gt: string, tokens: seq<string>, vocab: set<string>, lbl: string): LabelStats {
    LabelStats(
      if lbl == gt && gt in tokens then 1 else 0,
      FalsePositivesAmong(tokens, gt, vocab, lbl),
      if lbl == gt && gt !in tokens then 1 else 0)
  }

  function Add(a: LabelStats, b: LabelStats): LabelStats {
    LabelStats(a.tp + b.tp, a.fp + b.fp, a.fn + b.fn)
  }

  /** Extending the observations by one adds that observation's contribution. */
  lemma StatsOfStep(obs: seq<Observation>, i: nat, vocab: set<string>, lbl: string)
    requires i < |obs|
    ensures StatsOf(obs[..i + 1], vocab, lbl) == Add(StatsOf(obs[..i], vocab, lbl), Contribution(obs[i], vocab, lbl))
  {
    assert obs[..i + 1][..i] == obs[..i];
  }

  lemma VocabularyAppend(obs: seq<Observation>, o: Observation)
    ensures Vocabulary(obs + [o]) == Vocabulary(obs) + {o.groundTruth}
  {
    var obs' := obs + [o];
    assert forall i :: 0 <= i < |obs| ==> obs'[i] == obs[i];
    assert obs'[|obs|] == o;
  }

  lemma VocabularySingleton(o: Observation)
    ensures Vocabulary([o]) == {o.groundTruth}
  {
    assert [o][0] == o;
  }

  /** A single observation counts exactly its own contribution. */
  lemma StatsOfSingleton(o: Observation, vocab: set<string>, lbl: string)
    ensures StatsOf([o], vocab, lbl) == Contribution(o, vocab, lbl)
  {
    assert [o][..0] == [];
    var c := Contribution(o, vocab, lbl);
    assert TruePositives([o], lbl) == c.tp;
    assert FalsePositives([o], vocab, lbl) == c.fp;
    assert FalseNegatives([o], lbl) == c.fn;
  }

  /** Appending an observation adds its contribution. */
  lemma StatsOfAppend(obs: seq<Observation>, o: Observation, vocab: set<string>, lbl: string)
    ensures StatsOf(obs + [o], vocab, lbl) == Add(StatsOf(obs, vocab, lbl), Contribution(o, vocab, lbl))
  {
    StatsOfStep(obs + [o], |obs|, vocab, lbl);
    assert (obs + [o])[..|obs| + 1] == obs + [o];
    assert (obs + [o])[..|obs|] == obs;
  }

  /** Two observations count the sum of their contributions. */
  lemma StatsOfPair(o1: Observation, o2: Observation, vocab: set<string>, lbl: string)
    ensures StatsOf([o1, o2], vocab, lbl) == Add(Contribution(o1, vocab, lbl), Contribution(o2, vocab, lbl))
  {
    assert StatsOf([o1, o2], vocab, lbl) == StatsOf([o1] + [o2], vocab, lbl) by {
      assert [o1] + [o2] == [o1, o2];
    }
    StatsOfSingleton(o1, vocab, lbl);
    StatsOfAppend([o1], o2, vocab, lbl);
  }

  lemma VocabularyPair(o1: Observation, o2: Observation)
    ensures Vocabulary([o1, o2]) == {o1.groundTruth, o2.groundTruth}
  {
    assert [o1] + [o2] == [o1, o2];
    VocabularySingleton(o1);
    VocabularyAppend([o1], o2);
  }

  /** The expected statistics of two observations with different ground truths. */
  lemma ExpectedStatsPair(o1: Observation, o2: Observation, s1: LabelStats, s2: LabelStats)
    requires o1.groundTruth != o2.groundTruth
    requires StatsOf([o1, o2], {o1.groundTruth, o2.groundTruth}, o1.groundTruth) == s1
    requires StatsOf([o1, o2], {o1.groundTruth, o2.groundTruth}, o2.groundTruth) == s2
    ensures ExpectedStats([o1, o2]) == map[o1.groundTruth := s1, o2.groundTruth := s2]
  {
    VocabularyPair(o1, o2);
  }

  // ---------------------------------------------------------------- the counting pass

  /** `label_stats[lbl]` on the defaultdict: a missing label reads as all zeros. */
  function Get(stats: map<string, LabelStats>, lbl: string): (r: LabelStats)
    ensures lbl in stats ==> r == stats[lbl]
    ensures lbl !in stats ==> r == LabelStats(0, 0, 0)
  {
    if lbl in stats then stats[lbl] else LabelStats(0, 0, 0)
  }

  /** Counting one more token adds one false positive to it when it is a different vocabulary label. */
  lemma FalsePositivesAmongStep(tokens: seq<string>, j: nat, gt: string, vocab: set<string>, lbl: string)
    requires j < |tokens|
    ensures FalsePositivesAmong(tokens[..j + 1], gt, vocab, lbl)
      == FalsePositivesAmong(tokens[..j], gt, vocab, lbl) + (if lbl == tokens[j] && lbl != gt && lbl in vocab then 1 else 0)
  {
    assert tokens[..j + 1] == tokens[..j] + [tokens[j]];
  }

  /** The tp/fn half of one observation: the ground truth's hit or miss. */
  method CountOwnLabel(stats: map<string, LabelStats>, gt: string, tokens: seq<string>)
    returns (stats': map<string, LabelStats>)
    ensures stats'.Keys == stats.Keys + {gt}
    ensures forall l :: Get(stats', l).tp == Get(stats, l).tp + ContributionOf(gt, tokens, {}, l).tp
    ensures forall l :: Get(stats', l).fn == Get(stats, l).fn + ContributionOf(gt, tokens, {}, l).fn
    ensures forall l :: Get(stats', l).fp == Get(stats, l).fp
  {
    var s := Get(stats, gt);
    if gt in tokens {
      stats' := stats[gt := LabelStats(s.tp + 1, s.fp, s.fn)];
    } else {
      stats' := stats[gt := LabelStats(s.tp, s.fp, s.fn + 1)];
    }
  }

  /** The fp half of one observation: the loop over `pred_list`. */
  method CountFalsePositives(stats: map<string, LabelStats>, gt: string, tokens: seq<string>, vocab: set<string>)
    returns (stats': map<string, LabelStats>)
    ensures stats.Keys <= stats'.Keys <= stats.Keys + vocab
    ensures forall l :: Get(stats', l).tp == Get(stats, l).tp
    ensures forall l :: Get(stats', l).fn == Get(stats, l).fn
    ensures forall l :: Get(stats', l).fp == Get(stats, l).fp + FalsePositivesAmong(tokens, gt, vocab, l)
  {
    stats' := stats;
    var j := 0;
    while j < |tokens|
      invariant 0 <= j <= |tokens|
      invariant stats.Keys <= stats'.Keys <= stats.Keys + vocab
      invariant forall l :: Get(stats', l).tp == Get(stats, l).tp
      invariant forall l :: Get(stats', l).fn == Get(stats, l).fn
      invariant forall l :: Get(stats', l).fp == Get(stats, l).fp + FalsePositivesAmong(tokens[..j], gt, vocab, l)
    {
      var p := tokens[j];
      forall l ensures FalsePositivesAmong(tokens[..j + 1], gt, vocab, l)
        == FalsePositivesAmong(tokens[..j], gt, vocab, l) + (if l == p && l != gt && l in vocab then 1 else 0)
      {
        FalsePositivesAmongStep(tokens, j, gt, vocab, l);
      }
      if p != gt && p in vocab {
        var sp := Get(stats', p);
        stats' := stats'[p := LabelStats(sp.tp, sp.fp + 1, sp.fn)];
      }
      j := j + 1;
    }
    assert tokens[..j] == tokens;
  }

  /**
   * The body of the loop over `zip(ground_truth, predictions)` for a row with
   * ground truth `gt` and prediction tokens `predList`: one tp or one fn for
   * the ground truth, then one fp per token that is a different vocabulary
   * label. Every label's counts grow by exactly that row's contribution; new
   * keys are vocabulary labels.
   */
  method CountRow(stats: map<string, LabelStats>, gt: string, predList: seq<string>, groundTruthSet: set<string>)
    returns (stats': map<string, LabelStats>)
    requires gt in groundTruthSet
    ensures stats.Keys + {gt} <= stats'.Keys <= stats.Keys + groundTruthSet
    ensures forall l :: Get(stats', l) == Add(Get(stats, l), ContributionOf(gt, predList, groundTruthSet, l))
  {
    var own := CountOwnLabel(stats, gt, predList);
    stats' := CountFalsePositives(own, gt, predList, groundTruthSet);
  }

  /** One observation: its prediction string is tokenised first (`pred_list`). */
  method CountObservation(stats: map<string, LabelStats>, o: Observation, groundTruthSet: set<string>)
    returns (stats': map<string, LabelStats>)
    requires o.groundTruth in groundTruthSet
    ensures stats.Keys + {o.groundTruth} <= stats'.Keys <= stats.Keys + groundTruthSet
    ensures forall l :: Get(stats', l) == Add(Get(stats, l), Contribution(o, groundTruthSet, l))
  {
    stats' := CountRow(stats, o.groundTruth, Tokens(o.predicted), groundTruthSet);
  }

  /**
   * The counting pass of the script. The result is exactly the specified
   * statistics; in particular its keys are exactly the vocabulary, so no
   * unknown predicted label ever gets an entry.
   */
  method ComputeLabelStats(obs: seq<Observation>) returns (stats: map<string, LabelStats>)
    ensures stats == ExpectedStats(obs)
  {
    var groundTruthSet := set i | 0 <= i < |obs| :: obs[i].groundTruth;
    stats := map[];
    var i := 0;
    while i < |obs|
      invariant 0 <= i <= |obs|
      invariant stats.Keys <= groundTruthSet
      invariant forall k :: 0 <= k < i ==> obs[k].groundTruth in stats
      invariant forall l :: Get(stats, l) == StatsOf(obs[..i], groundTruthSet, l)
    {
      ghost var before := stats;
      stats := CountObservation(stats, obs[i], groundTruthSet);
      forall l ensures Get(stats, l) == StatsOf(obs[..i + 1], groundTruthSet, l) {
        StatsOfStep(obs, i, groundTruthSet, l);
      }
      i := i + 1;
    }
    assert obs[..i] == obs;
    assert stats.Keys == groundTruthSet by {
      forall l | l in groundTruthSet ensures l in stats {
        var k :| 0 <= k < |obs| && obs[k].groundTruth == l;
      }
    }
    forall l | l in stats ensures stats[l] == ExpectedStats(obs)[l] {
      assert Get(stats, l) == stats[l];
    }
  }

  // ---------------------------------------------------------------- report rows

  /** Facts about `n / d` for a positive denominator that is at least the numerator. */
  lemma RatioFacts(n: nat, d: nat)
    requires 0 < d && n <= d
    ensures var q := n as real / d as real;
      && q * d as real == n as real
      && 0.0 <= q <= 1.0
      && (q == 1.0 <==> n == d)
      && (q == 0.0 <==> n == 0)
  {
    var q := n as real / d as real;
    assert q * d as real == n as real;
    assert (1.0 - q) * d as real == (d - n) as real;
    if q == 1.0 {
      assert n as real == d as real;
    }
  }

  /** A count over a total, 0 when the total is 0. */
  function Ratio(n: nat, d: nat): (q: real)
    requires n <= d
    ensures 0.0 <= q <= 1.0
    ensures d == 0 ==> q == 0.0
    ensures q == 1.0 <==> 0 < n == d
    ensures q == 0.0 <==> n == 0
  {
    if d > 0 then RatioFacts(n, d); n as real / d as real else 0.0
  }

  /** A ratio over a positive total is the fraction of the total the count makes up. */
  lemma RatioTimesTotal(n: nat, d: nat)
    requires 0 < d && n <= d
    ensures Ratio(n, d) * d as real == n as real
  {
    RatioFacts(n, d);
  }

  /**
   * `tp / (tp + fp)`, or 0 when nothing was predicted as this label. It is a
   * ratio in [0, 1]; it is 1 exactly when there are hits and no false
   * positives, and 0 exactly when there are no hits.
   */
  function Precision(s: LabelStats): (p: real)
    ensures 0.0 <= p <= 1.0
    ensures s.tp + s.fp == 0 ==> p == 0.0
    ensures p == 1.0 <==> s.tp > 0 && s.fp == 0
    ensures p == 0.0 <==> s.tp == 0
  {
    Ratio(s.tp, s.tp + s.fp)
  }

  /**
   * `tp / (tp + fn)`, or 0 when the label never was a ground truth. It is a
   * ratio in [0, 1]; it is 1 exactly when there are hits and no misses, and 0
   * exactly when there are no hits.
   */
  function Recall(s: LabelStats): (r: real)
    ensures 0.0 <= r <= 1.0
    ensures s.tp + s.fn == 0 ==> r == 0.0
    ensures r == 1.0 <==> s.tp > 0 && s.fn == 0
    ensures r == 0.0 <==> s.tp == 0
  {
    Ratio(s.tp, s.tp + s.fn)
  }

  /** Precision times the number of predictions of a label is its number of hits. */
  lemma PrecisionIsHitShare(s: LabelStats)
    requires s.tp + s.fp > 0
    ensures Precision(s) * (s.tp + s.fp) as real == s.tp as real
  {
    RatioTimesTotal(s.tp, s.tp + s.fp);
  }

  /** Recall times the number of rows of a label is its number of hits. */
  lemma RecallIsHitShare(s: LabelStats)
    requires s.tp + s.fn > 0
    ensures Recall(s) * (s.tp + s.fn) as real == s.tp as real
  {
    RatioTimesTotal(s.tp, s.tp + s.fn);
  }

  /** The report row of one label: its counts and its two ratios. */
  function RowFor(lbl: string, s: LabelStats): (r: ReportRow)
    ensures r.name == lbl && r.tp == s.tp && r.fp == s.fp && r.fn == s.fn
    ensures 0.0 <= r.precision <= 1.0 && 0.0 <= r.recall <= 1.0
  {
    ReportRow(lbl, Precision(s), Recall(s), s.tp, s.fp, s.fn)
  }

  function Labels(rows: seq<ReportRow>): (labels: seq<string>)
    ensures |labels| == |rows|
    ensures forall i :: 0 <= i < |rows| ==> labels[i] == rows[i].name
  {
    seq(|rows|, i requires 0 <= i < |rows| => rows[i].name)
  }

  /**
   * `rows` is the report of `stats`: one row per key (no more, no fewer), each
   * carrying that key's counts and ratios, in strictly ascending label order.
   */
  ghost predicate IsReportOf(rows: seq<ReportRow>, stats: map<string, LabelStats>) {
    && |rows| == |stats|
    && (forall i :: 0 <= i < |rows| ==> rows[i].name in stats && rows[i] == RowFor(rows[i].name, stats[rows[i].name]))
    && Elements(Labels(rows)) == stats.Keys
    && StrictlyAscending(Labels(rows))
  }

  /** The report of a map is unique: the same statistics always give the same rows. */
  lemma ReportUnique(a: seq<ReportRow>, b: seq<ReportRow>, stats: map<string, LabelStats>)
    requires IsReportOf(a, stats) && IsReportOf(b, stats)
    ensures a == b
  {
    AscendingUnique(Labels(a), Labels(b));
    assert forall i :: 0 <= i < |a| ==> a[i].name == b[i].name;
  }

  /**
   * The loop over `sorted(label_stats.keys())`: the labels are sorted, then
   * each one's row is appended in that order.
   */
  method BuildReport(stats: map<string, LabelStats>) returns (rows: seq<ReportRow>)
    ensures IsReportOf(rows, stats)
  {
    var labels := SortedStrings(stats.Keys);
    SortedStringsSorts(stats.Keys);
    assert forall k :: 0 <= k < |labels| ==> labels[k] in Elements(labels);
    rows := [];
    var i := 0;
    while i < |labels|
      invariant 0 <= i <= |labels|
      invariant |rows| == i
      invariant forall k :: 0 <= k < i ==> rows[k] == RowFor(labels[k], stats[labels[k]])
    {
      rows := rows + [RowFor(labels[i], stats[labels[i]])];
      i := i + 1;
    }
    assert Labels(rows) == labels;
  }

  /** The whole script between reading the columns and writing the CSV. */
  method CalculateMetrics(obs: seq<Observation>) returns (rows: seq<ReportRow>)
    ensures IsReportOf(rows, ExpectedStats(obs))
  {
    var stats := ComputeLabelStats(obs);
    rows := BuildReport(stats);
  }

  // ---------------------------------------------------------------- properties

  /** Every observation is exactly one hit or one miss of its own ground truth. */
  lemma {:induction false} Conservation(obs: seq<Observation>, lbl: string)
    ensures TruePositives(obs, lbl) + FalseNegatives(obs, lbl) == RowsLabelled(obs, lbl)
    decreases |obs|
  {
    if obs != [] {
      Conservation(obs[..|obs| - 1], lbl);
    }
  }

  /** A label outside the vocabulary never collects a false positive. */
  lemma {:induction false} UnknownLabelsCountNothing(obs: seq<Observation>, vocab: set<string>, lbl: string)
    requires lbl !in vocab
    ensures FalsePositives(obs, vocab, lbl) == 0
    decreases |obs|
  {
    if obs != [] {
      UnknownLabelsCountNothing(obs[..|obs| - 1], vocab, lbl);
    }
  }

  /** Only vocabulary labels get rows, and every vocabulary label does. */
  lemma RowsAreExactlyTheVocabulary(obs: seq<Observation>, rows: seq<ReportRow>)
    requires IsReportOf(rows, ExpectedStats(obs))
    ensures Elements(Labels(rows)) == Vocabulary(obs)
    ensures forall i :: 0 <= i < |rows| ==> rows[i].tp + rows[i].fn == RowsLabelled(obs, rows[i].name)
  {
    forall i | 0 <= i < |rows| ensures rows[i].tp + rows[i].fn == RowsLabelled(obs, rows[i].name) {
      Conservation(obs, rows[i].name);
    }
  }

  /** A label as a person writes it in a prediction: non-empty, no comma, no surrounding blanks. */
  predicate PlainLabel(s: string) {
    s != "" && ',' !in s && Unpadded(s)
  }

  /**
   * Repeating the ground truth in one prediction still gives one true positive,
   * while repeating a wrong vocabulary label counts it once per repetition.
   */
  lemma RepeatedTokens(a: string, b: string, obs: seq<Observation>)
    requires PlainLabel(a) && PlainLabel(b) && a != b
    requires obs == [Observation(a, a + ", " + a), Observation(b, a + ", " + a)]
    ensures StatsOf(obs, Vocabulary(obs), a) == LabelStats(1, 2, 0)
    ensures StatsOf(obs, Vocabulary(obs), b) == LabelStats(0, 0, 1)
  {
    var o1, o2 := obs[0], obs[1];
    VocabularyPair(o1, o2);
    var vocab := {a, b};
    assert Contribution(o1, vocab, a) == LabelStats(1, 0, 0) by {
      TokensOfTwo(a, a);
    }
    assert Contribution(o2, vocab, a) == LabelStats(0, 2, 0) by {
      TokensOfTwo(a, a);
      assert multiset([a, a])[a] == 2;
    }
    assert Contribution(o1, vocab, b) == LabelStats(0, 0, 0) by {
      TokensOfTwo(a, a);
      assert multiset([a, a])[b] == 0;
    }
    assert Contribution(o2, vocab, b) == LabelStats(0, 0, 1) by {
      TokensOfTwo(a, a);
      assert b !in [a, a];
    }
    StatsOfPair(o1, o2, vocab, a);
    StatsOfPair(o1, o2, vocab, b);
  }

  /** The statistics of the miss-and-extra rows. */
  lemma MissAndExtraStats(a: string, b: string)
    requires PlainLabel(b) && a != b
    ensures ExpectedStats([Observation(a, b), Observation(b, b)])
      == map[a := LabelStats(0, 0, 1), b := LabelStats(1, 1, 0)]
  {
    var o1, o2 := Observation(a, b), Observation(b, b);
    VocabularyPair(o1, o2);
    var vocab := {a, b};
    assert Contribution(o1, vocab, a) == LabelStats(0, 0, 1) by {
      TokensOfOne(b);
    }
    assert Contribution(o2, vocab, a) == LabelStats(0, 0, 0) by {
      TokensOfOne(b);
      assert multiset([b])[a] == 0;
    }
    assert Contribution(o1, vocab, b) == LabelStats(0, 1, 0) by {
      TokensOfOne(b);
    }
    assert Contribution(o2, vocab, b) == LabelStats(1, 0, 0) by {
      TokensOfOne(b);
    }
    StatsOfPair(o1, o2, vocab, a);
    StatsOfPair(o1, o2, vocab, b);
    ExpectedStatsPair(o1, o2, LabelStats(0, 0, 1), LabelStats(1, 1, 0));
  }

  /** Two rows in label order are a report of their two labels. */
  lemma TwoRowsAreReport(a: string, b: string, sa: LabelStats, sb: LabelStats)
    requires Less(a, b)
    ensures IsReportOf([RowFor(a, sa), RowFor(b, sb)], map[a := sa, b := sb])
  {
    LessIrreflexive(a);
    var expected := [RowFor(a, sa), RowFor(b, sb)];
    assert Labels(expected) == [a, b];
    assert |expected| == |map[a := sa, b := sb]|;
    assert Elements([a, b]) == {a, b} by {
      assert [a] + [b] == [a, b];
      ElementsAppend([a], b);
      assert Elements([a]) == {a} by {
        assert [a][0] == a;
      }
    }
  }

  /** The report of two labels in order. */
  lemma TwoRowReport(a: string, b: string, sa: LabelStats, sb: LabelStats, rows: seq<ReportRow>)
    requires Less(a, b)
    requires IsReportOf(rows, map[a := sa, b := sb])
    ensures rows == [RowFor(a, sa), RowFor(b, sb)]
  {
    TwoRowsAreReport(a, b, sa, sb);
    ReportUnique(rows, [RowFor(a, sa), RowFor(b, sb)], map[a := sa, b := sb]);
  }

  /** The ratios of a pure miss and of one hit with one false positive. */
  lemma MissAndExtraRows(a: string, b: string)
    ensures RowFor(a, LabelStats(0, 0, 1)) == ReportRow(a, 0.0, 0.0, 0, 0, 1)
    ensures RowFor(b, LabelStats(1, 1, 0)) == ReportRow(b, 0.5, 1.0, 1, 1, 0)
  {
  }

  /**
   * The miss-and-extra scenario: ground truths `a` and `b`, both predicted as
   * `b`. `a` gets one miss; `b` gets one hit and one false positive, so
   * precision 1/2 and recall 1; the rows come out in label order.
   */
  lemma MissAndExtraScenario(a: string, b: string, rows: seq<ReportRow>)
    requires PlainLabel(b) && Less(a, b)
    requires IsReportOf(rows, ExpectedStats([Observation(a, b), Observation(b, b)]))
    ensures rows == [ReportRow(a, 0.0, 0.0, 0, 0, 1), ReportRow(b, 0.5, 1.0, 1, 1, 0)]
  {
    assert a != b by {
      LessIrreflexive(a);
    }
    MissAndExtraStats(a, b);
    TwoRowReport(a, b, LabelStats(0, 0, 1), LabelStats(1, 1, 0), rows);
    MissAndExtraRows(a, b);
  }

  /** An empty prediction is a single miss. */
  lemma EmptyPredictionScenario(a: string)
    ensures ExpectedStats([Observation(a, "")]) == map[a := LabelStats(0, 0, 1)]
  {
    var o := Observation(a, "");
    TokensOfEmpty();
    VocabularySingleton(o);
    StatsOfSingleton(o, {a}, a);
  }

  /** A hit plus an out-of-vocabulary token: the unknown token earns nothing and gets no row. */
  lemma UnknownTokenScenario(a: string, b: string, c: string)
    requires PlainLabel(a) && PlainLabel(b) && PlainLabel(c)
    requires a != b && c != a && c != b
    ensures ExpectedStats([Observation(a, a + ", " + c), Observation(b, b)])
      == map[a := LabelStats(1, 0, 0), b := LabelStats(1, 0, 0)]
  {
    var o1, o2 := Observation(a, a + ", " + c), Observation(b, b);
    VocabularyPair(o1, o2);
    var vocab := {a, b};
    assert Contribution(o1, vocab, a) == LabelStats(1, 0, 0) by {
      TokensOfTwo(a, c);
    }
    assert Contribution(o2, vocab, a) == LabelStats(0, 0, 0) by {
      TokensOfOne(b);
      assert multiset([b])[a] == 0;
    }
    assert Contribution(o1, vocab, b) == LabelStats(0, 0, 0) by {
      TokensOfTwo(a, c);
      assert multiset([a, c])[b] == 0;
    }
    assert Contribution(o2, vocab, b) == LabelStats(1, 0, 0) by {
      TokensOfOne(b);
    }
    StatsOfPair(o1, o2, vocab, a);
    StatsOfPair(o1, o2, vocab, b);
    ExpectedStatsPair(o1, o2, LabelStats(1, 0, 0), LabelStats(1, 0, 0));
  }
}
