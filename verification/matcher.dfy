/**
 The matching run: document tables keyed by file name, one result row per
 CV holding its score for every job and its best-matching job, the
 percent-formatted matrix, and the best candidate for every job.

 The language-model call is not modelled: its reply for the i-th CV and the
 j-th job description is the input `reply(i, j)`.
 */
module Matcher {
  import opened Wrappers
  import opened ScoreParse
  import opened Percent
  import opened ArgMax
  import opened OrderedDict

  /** An uploaded document: its file name and its extracted text. */
  datatype Upload = Upload(name: string, text: string)

  /** A value in a result row: a string, an integer score, or `None`. */
  datatype Cell = Str(s: string) | Num(n: nat) | Null

  /** A result row: a dictionary from column name to value. */
  type Row = Dict<string, Cell>

  /** A row of the best-candidate summary. */
  datatype TopCandidate = TopCandidate(job: string, candidate: Cell, score: Cell)

  /** Both tables the run displays. */
  datatype Outcome = Outcome(matrix: seq<Row>, top: seq<TopCandidate>)

  /** The model's reply for the i-th CV and the j-th job description. */
  type Replies = (nat, nat) -> string

  const CvKey: string := "CV"
  const BestKey: string := "Best Match"

  // ---------------------------------------------------------------------
  // Document tables

  function Names(uploads: seq<Upload>): seq<string> {
    seq(|uploads|, i requires 0 <= i < |uploads| => uploads[i].name)
  }

  function UploadPairs(uploads: seq<Upload>): (ps: seq<(string, string)>)
    ensures Keys(ps) == Names(uploads)
  {
    seq(|uploads|, i requires 0 <= i < |uploads| => (uploads[i].name, uploads[i].text))
  }

  /** `texts[f.name] = text` for every upload `f`, in upload order. */
  function TextTable(uploads: seq<Upload>): Dict<string, string> {
    FromPairs(UploadPairs(uploads))
  }

  /** A text table holds every uploaded name once, ordered by its first
      upload, with the text of its last upload. */
  lemma TextTableSpec(uploads: seq<Upload>)
    ensures Distinct(Keys(TextTable(uploads)))
    ensures forall n :: n in Keys(TextTable(uploads)) <==> n in Names(uploads)
    ensures OrderedByFirst(Keys(TextTable(uploads)), Names(uploads))
    ensures forall i | 0 <= i < |uploads| && (forall j | i < j < |uploads| :: uploads[j].name != uploads[i].name) ::
              Get(TextTable(uploads), uploads[i].name) == Some(uploads[i].text)
  {
    var ps := UploadPairs(uploads);
    FromPairsKeys(ps);
    forall i | 0 <= i < |uploads| && (forall j | i < j < |uploads| :: uploads[j].name != uploads[i].name)
      ensures Get(TextTable(uploads), uploads[i].name) == Some(uploads[i].text)
    {
      FromPairsValues(ps, uploads[i].name);
      assert IsLastWith(ps, uploads[i].name, i);
    }
  }

  // ---------------------------------------------------------------------
  // One row per CV

  /** The scores of the i-th CV against the first `n` jobs. */
  function Scores(reply: Replies, i: nat, n: nat): seq<nat> {
    var r := seq(n, (j: nat) requires j < n => ParseScore(reply(i, j)));
    assert forall k | 0 <= k < n :: r[k] == ParseScore(reply(i, k));
    r
  }

  /** The best-role loop from position `i` on: a job replaces the running
      best only with a strictly greater score. */
  function ScanBest(jobs: seq<string>, scores: seq<nat>, i: nat, bestScore: int, bestRole: Option<string>): (int, Option<string>)
    requires |jobs| == |scores| && i <= |scores|
    decreases |scores| - i
  {
    if i == |scores| then (bestScore, bestRole)
    else if scores[i] > bestScore then ScanBest(jobs, scores, i + 1, scores[i], Some(jobs[i]))
    else ScanBest(jobs, scores, i + 1, bestScore, bestRole)
  }

  /** The loop started from `best_score = -1`, `best_role = None`. */
  function BestRole(jobs: seq<string>, scores: seq<nat>): (int, Option<string>)
    requires |jobs| == |scores|
  {
    ScanBest(jobs, scores, 0, -1, None)
  }

  /** Once the loop has seen a prefix, it ends on the first maximum of the
      whole sequence. */
  lemma {:induction false} ScanBestFrom(jobs: seq<string>, scores: seq<nat>, i: nat, bestScore: int, bestRole: Option<string>)
    requires |jobs| == |scores| && 0 < i <= |scores|
    requires bestScore == scores[FirstMax(scores[..i])] && bestRole == Some(jobs[FirstMax(scores[..i])])
    ensures ScanBest(jobs, scores, i, bestScore, bestRole) == (scores[FirstMax(scores)], Some(jobs[FirstMax(scores)]))
    decreases |scores| - i
  {
    if i == |scores| {
      assert scores[..i] == scores;
    } else {
      var k := FirstMax(scores[..i]);
      var next := scores[..i + 1];
      assert next[..i] == scores[..i];
      if scores[i] > bestScore {
        assert IsFirstMax(next, i);
        FirstMaxUnique(next, i, FirstMax(next));
      } else {
        assert IsFirstMax(next, k);
        FirstMaxUnique(next, k, FirstMax(next));
      }
      ScanBestFrom(jobs, scores, i + 1, scores[FirstMax(next)], Some(jobs[FirstMax(next)]));
    }
  }

  /** `best_score` ends as the maximum score and `best_role` as the earliest
      job reaching it; with no job at all the role stays `None`. */
  lemma BestRoleIsFirstMax(jobs: seq<string>, scores: seq<nat>)
    requires |jobs| == |scores|
    ensures |scores| == 0 ==> BestRole(jobs, scores) == (-1, None)
    ensures |scores| > 0 ==>
              BestRole(jobs, scores) == (scores[FirstMax(scores)], Some(jobs[FirstMax(scores)]))
  {
    if |scores| > 0 {
      assert IsFirstMax(scores[..1], 0);
      FirstMaxUnique(scores[..1], 0, FirstMax(scores[..1]));
      ScanBestFrom(jobs, scores, 1, scores[0], Some(jobs[0]));
    }
  }

  function RoleCell(role: Option<string>): Cell {
    match role
    case None => Null
    case Some(name) => Str(name)
  }

  function ScorePairs(jobs: seq<string>, scores: seq<nat>): seq<(string, Cell)>
    requires |jobs| == |scores|
  {
    seq(|jobs|, j requires 0 <= j < |jobs| => (jobs[j], Num(scores[j])))
  }

  /** The row of one CV: its name, its score for every job, its best match. */
  function MatchRow(cv: string, jobs: seq<string>, scores: seq<nat>): Row
    requires |jobs| == |scores|
  {
    var row := PutAll([(CvKey, Str(cv))], ScorePairs(jobs, scores));
    Put(row, BestKey, RoleCell(BestRole(jobs, scores).1))
  }

  /** Job names as a job-description table provides them: distinct, and
      different from the row's own column names. */
  ghost predicate JobColumns(jobs: seq<string>) {
    Distinct(jobs) && CvKey !in jobs && BestKey !in jobs
  }

  /** Before `Best Match` is set, a row holds `CV` and then every job with
      its score. */
  lemma ScoreColumns(cv: string, jobs: seq<string>, scores: seq<nat>)
    requires |jobs| == |scores| && JobColumns(jobs)
    ensures Keys(PutAll([(CvKey, Str(cv))], ScorePairs(jobs, scores))) == [CvKey] + jobs
    ensures Get(PutAll([(CvKey, Str(cv))], ScorePairs(jobs, scores)), CvKey) == Some(Str(cv))
    ensures forall j | 0 <= j < |jobs| ::
              Get(PutAll([(CvKey, Str(cv))], ScorePairs(jobs, scores)), jobs[j]) == Some(Num(scores[j]))
  {
    var start: Row := [(CvKey, Str(cv))];
    var pairs := ScorePairs(jobs, scores);
    assert Keys(start) == [CvKey];
    assert Keys(pairs) == jobs;
    assert Distinct(Keys(start) + Keys(pairs)) by {
      var a := Keys(start) + Keys(pairs);
      forall i, j | 0 <= i < j < |a| ensures a[i] != a[j] {
        assert a[j] == jobs[j - 1];
        if i > 0 {
          assert a[i] == jobs[i - 1];
        }
      }
    }
    PutAllFresh(start, pairs);
    forall j | 0 <= j < |jobs| ensures Get(PutAll(start, pairs), jobs[j]) == Some(Num(scores[j])) {
      assert pairs[j] == (jobs[j], Num(scores[j]));
    }
  }

  /** Setting `Best Match` last appends it after `CV` and the jobs. */
  lemma PutBest(row: Row, cv: string, jobs: seq<string>, scores: seq<nat>, best: Cell)
    requires |jobs| == |scores| && JobColumns(jobs)
    requires Keys(row) == [CvKey] + jobs
    requires Get(row, CvKey) == Some(Str(cv))
    requires forall j | 0 <= j < |jobs| :: Get(row, jobs[j]) == Some(Num(scores[j]))
    ensures Keys(Put(row, BestKey, best)) == [CvKey] + jobs + [BestKey]
    ensures Get(Put(row, BestKey, best), CvKey) == Some(Str(cv))
    ensures forall j | 0 <= j < |jobs| :: Get(Put(row, BestKey, best), jobs[j]) == Some(Num(scores[j]))
    ensures Get(Put(row, BestKey, best), BestKey) == Some(best)
  {
    assert BestKey !in Keys(row);
    forall j | 0 <= j < |jobs| ensures Get(Put(row, BestKey, best), jobs[j]) == Some(Num(scores[j])) {
      assert jobs[j] != BestKey;
    }
  }

  /** The `Best Match` cell: the first job with the maximum score, or `None`
      when there is no job. */
  lemma BestCell(jobs: seq<string>, scores: seq<nat>)
    requires |jobs| == |scores|
    ensures |jobs| > 0 ==> RoleCell(BestRole(jobs, scores).1) == Str(jobs[FirstMax(scores)])
    ensures |jobs| == 0 ==> RoleCell(BestRole(jobs, scores).1) == Null
  {
    BestRoleIsFirstMax(jobs, scores);
  }

  /** A row holds exactly the columns `CV`, every job in order, and
      `Best Match`, with the CV's name, its scores, and the first job
      reaching its maximum score. */
  lemma MatchRowSpec(cv: string, jobs: seq<string>, scores: seq<nat>)
    requires |jobs| == |scores| && JobColumns(jobs)
    ensures Keys(MatchRow(cv, jobs, scores)) == [CvKey] + jobs + [BestKey]
    ensures Get(MatchRow(cv, jobs, scores), CvKey) == Some(Str(cv))
    ensures forall j | 0 <= j < |jobs| :: Get(MatchRow(cv, jobs, scores), jobs[j]) == Some(Num(scores[j]))
    ensures |jobs| > 0 ==> Get(MatchRow(cv, jobs, scores), BestKey) == Some(Str(jobs[FirstMax(scores)]))
    ensures |jobs| == 0 ==> Get(MatchRow(cv, jobs, scores), BestKey) == Some(Null)
  {
    ScoreColumns(cv, jobs, scores);
    var row := PutAll([(CvKey, Str(cv))], ScorePairs(jobs, scores));
    var best := RoleCell(BestRole(jobs, scores).1);
    assert MatchRow(cv, jobs, scores) == Put(row, BestKey, best);
    PutBest(row, cv, jobs, scores, best);
    BestCell(jobs, scores);
  }

  /** The rows of all CVs, in CV order, before formatting. */
  function MatchMatrix(cvs: seq<string>, jobs: seq<string>, reply: Replies): seq<Row> {
    seq(|cvs|, i requires 0 <= i < |cvs| => MatchRow(cvs[i], jobs, Scores(reply, i, |jobs|)))
  }

  // ---------------------------------------------------------------------
  // Percent formatting of the job columns

  /** `f"{x}%" if x is not None else "N/A"`. */
  function FormatCell(c: Cell): string {
    match c
    case Num(n) => Format(n)
    case Str(s) => s + "%"
    case Null => "N/A"
  }

  /** Some row has column `k` (`k in df.columns`). */
  predicate HasColumn(df: seq<Row>, k: string) {
    exists i | 0 <= i < |df| :: k in Keys(df[i])
  }

  function FormatIn(row: Row, k: string): Row {
    match Get(row, k)
    case None => row
    case Some(c) => Put(row, k, Str(FormatCell(c)))
  }

  function FormatColumn(df: seq<Row>, k: string): seq<Row> {
    if HasColumn(df, k) then seq(|df|, i requires 0 <= i < |df| => FormatIn(df[i], k)) else df
  }

  /** Formats column `k` of every row, for each `k` of `ks` in turn. */
  function FormatColumns(df: seq<Row>, ks: seq<string>): seq<Row>
    decreases |ks|
  {
    if |ks| == 0 then df else FormatColumns(FormatColumn(df, ks[0]), ks[1..])
  }

  /** The value a cell takes once its column has or has not been formatted. */
  function Formatted(c: Option<Cell>, formatted: bool): Option<Cell> {
    if formatted && c.Some? then Some(Str(FormatCell(c.value))) else c
  }

  lemma {:induction false} FormatColumnsLength(df: seq<Row>, ks: seq<string>)
    ensures |FormatColumns(df, ks)| == |df|
    decreases |ks|
  {
    if |ks| > 0 {
      FormatColumnsLength(FormatColumn(df, ks[0]), ks[1..]);
    }
  }

  /** Formatting distinct columns keeps every row's columns and their order,
      renders each cell of those columns once, and leaves the other cells
      alone. */
  lemma {:induction false} FormatColumnsAt(df: seq<Row>, ks: seq<string>, i: nat, k: string)
    requires Distinct(ks) && i < |df|
    ensures |FormatColumns(df, ks)| == |df|
    ensures Keys(FormatColumns(df, ks)[i]) == Keys(df[i])
    ensures Get(FormatColumns(df, ks)[i], k) == Formatted(Get(df[i], k), k in ks)
    decreases |ks|
  {
    if |ks| > 0 {
      var once := FormatColumn(df, ks[0]);
      assert |once| == |df|;
      assert Keys(once[i]) == Keys(df[i]);
      assert Get(once[i], k) == Formatted(Get(df[i], k), k == ks[0]);
      var rest := ks[1..];
      assert Distinct(rest) by {
        forall a, b | 0 <= a < b < |rest| ensures rest[a] != rest[b] {
          assert rest[a] == ks[a + 1] && rest[b] == ks[b + 1];
        }
      }
      assert ks[0] !in rest by {
        forall a | 0 <= a < |rest| ensures rest[a] != ks[0] {
          assert rest[a] == ks[a + 1];
        }
      }
      FormatColumnsAt(once, rest, i, k);
      assert ks == [ks[0]] + rest;
    }
  }

  // ---------------------------------------------------------------------
  // Best candidate per job

  /** `str.rstrip('%')` and the numeric conversion of one cell. */
  function CellNumber(c: Option<Cell>): Option<nat> {
    match c
    case Some(Str(s)) => ParseNumber(RStrip(s, '%'))
    case _ => None
  }

  /** Column `k` read back as numbers; `None` when a cell does not convert. */
  function ReadColumn(df: seq<Row>, k: string): (r: Option<seq<nat>>)
    ensures r.Some? ==> |r.value| == |df|
  {
    if |df| == 0 then Some([])
    else
      match (CellNumber(Get(df[0], k)), ReadColumn(df[1..], k))
      case (Some(n), Some(rest)) => Some([n] + rest)
      case _ => None
  }

  /** `row[k]`, a missing value reading as `None`. */
  function Lookup(row: Row, k: string): Cell {
    Get(row, k).GetOr(Null)
  }

  /** The summary row for job `k`: the row of the first maximum of its
      column (`idxmax`), or nothing when the column is absent or does not
      convert (the warning path). */
  function TopFor(df: seq<Row>, k: string): seq<TopCandidate> {
    if !HasColumn(df, k) then []
    else
      match ReadColumn(df, k)
      case None => []
      case Some(col) =>
        var b := FirstMax(col);
        [TopCandidate(k, Lookup(df[b], CvKey), Lookup(df[b], k))]
  }

  function TopCandidates(df: seq<Row>, ks: seq<string>): seq<TopCandidate> {
    if |ks| == 0 then [] else TopFor(df, ks[0]) + TopCandidates(df, ks[1..])
  }

  /** A column of formatted scores reads back as those scores. */
  lemma {:induction false} ReadFormattedColumn(df: seq<Row>, k: string, col: seq<nat>)
    requires |df| == |col|
    requires forall i | 0 <= i < |df| :: Get(df[i], k) == Some(Str(Format(col[i])))
    ensures ReadColumn(df, k) == Some(col)
  {
    if |df| > 0 {
      FormatRoundTrip(col[0]);
      ReadFormattedColumn(df[1..], k, col[1..]);
      assert col == [col[0]] + col[1..];
    }
  }

  /** When every job yields a summary row, the summary has one row per job,
      in job order. */
  lemma {:induction false} TopCandidatesInOrder(df: seq<Row>, ks: seq<string>)
    requires forall j | 0 <= j < |ks| :: |TopFor(df, ks[j])| == 1
    ensures |TopCandidates(df, ks)| == |ks|
    ensures forall j | 0 <= j < |ks| :: TopCandidates(df, ks)[j] == TopFor(df, ks[j])[0]
  {
    if |ks| > 0 {
      assert forall j | 0 <= j < |ks| - 1 :: ks[1..][j] == ks[j + 1];
      TopCandidatesInOrder(df, ks[1..]);
    }
  }

  /** `Column(m, j)`: the scores of every CV for the j-th job. */
  function Column(m: seq<seq<nat>>, j: nat): seq<nat>
    requires forall i | 0 <= i < |m| :: j < |m[i]|
  {
    seq(|m|, i requires 0 <= i < |m| => m[i][j])
  }

  /** On a table of formatted scores `m`, the summary names for every job the
      first row reaching the maximum of that job's column, with that row's
      formatted score. */
  lemma TopCandidatesSpec(df: seq<Row>, ks: seq<string>, m: seq<seq<nat>>)
    requires |df| == |m| > 0
    requires forall i | 0 <= i < |m| :: |m[i]| == |ks|
    requires forall i, j | 0 <= i < |m| && 0 <= j < |ks| :: Get(df[i], ks[j]) == Some(Str(Format(m[i][j])))
    ensures |TopCandidates(df, ks)| == |ks|
    ensures forall j | 0 <= j < |ks| ::
              var b := FirstMax(Column(m, j));
              TopCandidates(df, ks)[j] == TopCandidate(ks[j], Lookup(df[b], CvKey), Str(Format(m[b][j])))
  {
    forall j | 0 <= j < |ks|
      ensures var b := FirstMax(Column(m, j));
              TopFor(df, ks[j]) == [TopCandidate(ks[j], Lookup(df[b], CvKey), Str(Format(m[b][j])))]
    {
      var col := Column(m, j);
      ReadFormattedColumn(df, ks[j], col);
      assert ks[j] in Keys(df[0]);
    }
    TopCandidatesInOrder(df, ks);
  }

  // ---------------------------------------------------------------------
  // The whole run

  /** The percent-formatted result matrix. */
  function Matrix(jds: seq<Upload>, cvs: seq<Upload>, reply: Replies): seq<Row> {
    var jobs := Keys(TextTable(jds));
    FormatColumns(MatchMatrix(Keys(TextTable(cvs)), jobs, reply), jobs)
  }

  /** Runs only when both upload lists are non-empty, as the run button
      requires. */
  function Run(jds: seq<Upload>, cvs: seq<Upload>, reply: Replies): Option<Outcome> {
    if |jds| == 0 || |cvs| == 0 then None
    else
      var df := Matrix(jds, cvs, reply);
      Some(Outcome(df, TopCandidates(df, Keys(TextTable(jds)))))
  }

  /** No uploaded job file is named like a row column. */
  ghost predicate PlainJobNames(jds: seq<Upload>) {
    forall i | 0 <= i < |jds| :: jds[i].name != CvKey && jds[i].name != BestKey
  }

  /** The job table of plainly named uploads provides valid job columns. */
  lemma JobTableColumns(jds: seq<Upload>)
    requires PlainJobNames(jds)
    ensures JobColumns(Keys(TextTable(jds)))
  {
    TextTableSpec(jds);
    assert CvKey !in Names(jds) && BestKey !in Names(jds);
  }

  /** The i-th row of the formatted matrix of CVs `cvs` and jobs `jobs`. */
  lemma FormattedRow(cvs: seq<string>, jobs: seq<string>, reply: Replies, i: nat)
    requires JobColumns(jobs) && i < |cvs|
    ensures var df := FormatColumns(MatchMatrix(cvs, jobs, reply), jobs);
            && |df| == |cvs|
            && Keys(df[i]) == [CvKey] + jobs + [BestKey]
            && Get(df[i], CvKey) == Some(Str(cvs[i]))
            && (forall j | 0 <= j < |jobs| :: Get(df[i], jobs[j]) == Some(Str(Format(ParseScore(reply(i, j))))))
            && (|jobs| > 0 ==> Get(df[i], BestKey) == Some(Str(jobs[FirstMax(Scores(reply, i, |jobs|))])))
  {
    var raw := MatchMatrix(cvs, jobs, reply);
    var df := FormatColumns(raw, jobs);
    var scores := Scores(reply, i, |jobs|);
    assert raw[i] == MatchRow(cvs[i], jobs, scores);
    MatchRowSpec(cvs[i], jobs, scores);
    FormatColumnsAt(raw, jobs, i, CvKey);
    FormatColumnsAt(raw, jobs, i, BestKey);
    forall j | 0 <= j < |jobs| ensures Get(df[i], jobs[j]) == Some(Str(Format(ParseScore(reply(i, j))))) {
      FormatColumnsAt(raw, jobs, i, jobs[j]);
      assert scores[j] == ParseScore(reply(i, j));
    }
  }

  /** The formatted matrix of CVs `cvs` and jobs `jobs`, row by row. */
  lemma FormattedMatrix(cvs: seq<string>, jobs: seq<string>, reply: Replies)
    requires JobColumns(jobs)
    ensures var df := FormatColumns(MatchMatrix(cvs, jobs, reply), jobs);
            && |df| == |cvs|
            && forall i | 0 <= i < |cvs| ::
                 && Keys(df[i]) == [CvKey] + jobs + [BestKey]
                 && Get(df[i], CvKey) == Some(Str(cvs[i]))
                 && (forall j | 0 <= j < |jobs| :: Get(df[i], jobs[j]) == Some(Str(Format(ParseScore(reply(i, j))))))
                 && (|jobs| > 0 ==> Get(df[i], BestKey) == Some(Str(jobs[FirstMax(Scores(reply, i, |jobs|))])))
  {
    FormatColumnsLength(MatchMatrix(cvs, jobs, reply), jobs);
    forall i | 0 <= i < |cvs| ensures
      var df := FormatColumns(MatchMatrix(cvs, jobs, reply), jobs);
      && Keys(df[i]) == [CvKey] + jobs + [BestKey]
      && Get(df[i], CvKey) == Some(Str(cvs[i]))
      && (forall j | 0 <= j < |jobs| :: Get(df[i], jobs[j]) == Some(Str(Format(ParseScore(reply(i, j))))))
      && (|jobs| > 0 ==> Get(df[i], BestKey) == Some(Str(jobs[FirstMax(Scores(reply, i, |jobs|))])))
    {
      FormattedRow(cvs, jobs, reply, i);
    }
  }

  /** The matrix has one row per distinct CV name, in CV order; each row holds
      the columns `CV`, every job, and `Best Match`, with the formatted
      score parsed from each reply and the first job reaching the CV's
      maximum score. */
  lemma MatrixSpec(jds: seq<Upload>, cvs: seq<Upload>, reply: Replies)
    requires PlainJobNames(jds)
    ensures var jobs := Keys(TextTable(jds));
            var cvNames := Keys(TextTable(cvs));
            var df := Matrix(jds, cvs, reply);
            && |df| == |cvNames|
            && forall i | 0 <= i < |cvNames| ::
                 && Keys(df[i]) == [CvKey] + jobs + [BestKey]
                 && Get(df[i], CvKey) == Some(Str(cvNames[i]))
                 && (forall j | 0 <= j < |jobs| :: Get(df[i], jobs[j]) == Some(Str(Format(ParseScore(reply(i, j))))))
                 && (|jobs| > 0 ==> Get(df[i], BestKey) == Some(Str(jobs[FirstMax(Scores(reply, i, |jobs|))])))
  {
    var jobs := Keys(TextTable(jds));
    var cvNames := Keys(TextTable(cvs));
    JobTableColumns(jds);
    assert Matrix(jds, cvs, reply) == FormatColumns(MatchMatrix(cvNames, jobs, reply), jobs);
    FormattedMatrix(cvNames, jobs, reply);
  }

  /** At least one upload gives at least one table entry. */
  lemma NonEmptyTable(uploads: seq<Upload>)
    requires |uploads| > 0
    ensures |Keys(TextTable(uploads))| > 0
  {
    TextTableSpec(uploads);
    assert Names(uploads)[0] == uploads[0].name;
  }

  /** The scores of all `rows` CVs against all `cols` jobs. */
  function ScoreMatrix(reply: Replies, rows: nat, cols: nat): seq<seq<nat>> {
    seq(rows, i requires 0 <= i < rows => Scores(reply, i, cols))
  }

  /** Once the run has at least one job, every row's `Best Match` is a job
      name, never `None`: the earliest job reaching the CV's maximum. */
  lemma BestMatchNeverNone(jds: seq<Upload>, cvs: seq<Upload>, reply: Replies)
    requires PlainJobNames(jds) && |jds| > 0
    ensures var jobs := Keys(TextTable(jds));
            var df := Matrix(jds, cvs, reply);
            forall i | 0 <= i < |df| ::
              && Get(df[i], BestKey) != Some(Null)
              && Get(df[i], BestKey) == Some(Str(jobs[FirstMax(Scores(reply, i, |jobs|))]))
  {
    NonEmptyTable(jds);
    MatrixSpec(jds, cvs, reply);
  }

  /** The cells of the formatted matrix that the summary reads. */
  lemma FormattedCells(cvs: seq<string>, jobs: seq<string>, reply: Replies)
    requires JobColumns(jobs)
    ensures var df := FormatColumns(MatchMatrix(cvs, jobs, reply), jobs);
            var m := ScoreMatrix(reply, |cvs|, |jobs|);
            && |df| == |cvs|
            && (forall i | 0 <= i < |cvs| :: Lookup(df[i], CvKey) == Str(cvs[i]))
            && (forall i, j | 0 <= i < |cvs| && 0 <= j < |jobs| :: Get(df[i], jobs[j]) == Some(Str(Format(m[i][j]))))
  {
    var df := FormatColumns(MatchMatrix(cvs, jobs, reply), jobs);
    var m := ScoreMatrix(reply, |cvs|, |jobs|);
    FormattedMatrix(cvs, jobs, reply);
    forall i, j | 0 <= i < |cvs| && 0 <= j < |jobs| ensures Get(df[i], jobs[j]) == Some(Str(Format(m[i][j]))) {
      assert m[i][j] == ParseScore(reply(i, j));
    }
  }

  /** The summary of the formatted matrix of CVs `cvs` and jobs `jobs`. */
  lemma FormattedTop(cvs: seq<string>, jobs: seq<string>, reply: Replies)
    requires JobColumns(jobs) && |cvs| > 0
    ensures var df := FormatColumns(MatchMatrix(cvs, jobs, reply), jobs);
            var m := ScoreMatrix(reply, |cvs|, |jobs|);
            && |TopCandidates(df, jobs)| == |jobs|
            && forall j | 0 <= j < |jobs| ::
                 var b := FirstMax(Column(m, j));
                 TopCandidates(df, jobs)[j] == TopCandidate(jobs[j], Str(cvs[b]), Str(Format(m[b][j])))
  {
    var df := FormatColumns(MatchMatrix(cvs, jobs, reply), jobs);
    var m := ScoreMatrix(reply, |cvs|, |jobs|);
    FormattedCells(cvs, jobs, reply);
    TopCandidatesSpec(df, jobs, m);
  }

  /** Two CVs scored [[90, 10], [20, 80]] against two jobs: each CV's best
      match and each job's best candidate; a tie goes to the earlier job. */
  lemma ScoringExample()
    ensures BestRole(["Job1", "Job2"], [90, 10]) == (90, Some("Job1"))
    ensures BestRole(["Job1", "Job2"], [20, 80]) == (80, Some("Job2"))
    ensures FirstMax(Column([[90, 10], [20, 80]], 0)) == 0
    ensures FirstMax(Column([[90, 10], [20, 80]], 1)) == 1
    ensures BestRole(["Job1", "Job2"], [50, 50]) == (50, Some("Job1"))
  {
    BestRoleIsFirstMax(["Job1", "Job2"], [90, 10]);
    BestRoleIsFirstMax(["Job1", "Job2"], [20, 80]);
    BestRoleIsFirstMax(["Job1", "Job2"], [50, 50]);
    assert Column([[90, 10], [20, 80]], 0) == [90, 20];
    assert Column([[90, 10], [20, 80]], 1) == [10, 80];
  }

  /** The run happens exactly when both upload lists are non-empty; its
      summary has one row per job, in job order, naming the first CV that
      reaches the job's maximum score, with that CV's formatted score. */
  lemma RunSpec(jds: seq<Upload>, cvs: seq<Upload>, reply: Replies)
    requires PlainJobNames(jds)
    ensures Run(jds, cvs, reply).Some? <==> |jds| > 0 && |cvs| > 0
    ensures Run(jds, cvs, reply).Some? ==>
              var jobs := Keys(TextTable(jds));
              var cvNames := Keys(TextTable(cvs));
              var m := ScoreMatrix(reply, |cvNames|, |jobs|);
              var out := Run(jds, cvs, reply).value;
              && out.matrix == Matrix(jds, cvs, reply)
              && |out.top| == |jobs|
              && forall j | 0 <= j < |jobs| ::
                   var b := FirstMax(Column(m, j));
                   out.top[j] == TopCandidate(jobs[j], Str(cvNames[b]), Str(Format(m[b][j])))
  {
    if |jds| > 0 && |cvs| > 0 {
      var jobs := Keys(TextTable(jds));
      var cvNames := Keys(TextTable(cvs));
      JobTableColumns(jds);
      NonEmptyTable(cvs);
      assert Matrix(jds, cvs, reply) == FormatColumns(MatchMatrix(cvNames, jobs, reply), jobs);
      FormattedTop(cvNames, jobs, reply);
    }
  }
}
