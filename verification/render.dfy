/** The one-line rendering of a job descriptor printed by the partitioner's command
    line, `<years joined by ' '>,<variable>,<levels joined by ' ' or None>`, and a
    reading of such a line back into a descriptor. */
module Render {
  import opened Wrappers
  import opened Builtins
  import opened Partition
  import Decimal

  /** The number of characters in all the parts together. */
  function TotalLength(parts: seq<string>): nat
  {
    if |parts| == 0 then 0 else |parts[0]| + TotalLength(parts[1..])
  }

  /** Python's `sep.join(parts)` for a one-character separator: the parts in order,
      one separator between each neighbouring pair. */
  function Join(parts: seq<string>, sep: char): (s: string)
    ensures |parts| == 0 ==> s == ""
    ensures |parts| >= 1 ==> |s| == TotalLength(parts) + |parts| - 1
    ensures |parts| >= 1 ==> s[..|parts[0]|] == parts[0]
    ensures |parts| >= 2 ==> s[|parts[0]|] == sep
  {
    if |parts| == 0 then ""
    else if |parts| == 1 then parts[0]
    else parts[0] + [sep] + Join(parts[1..], sep)
  }

  /** Where part `k` begins in `Join(parts, sep)`: after the `k` earlier parts and
      their `k` separators. */
  function Start(parts: seq<string>, k: nat): nat
    requires k <= |parts|
  {
    TotalLength(parts[..k]) + k
  }

  /** The layout of `Join(parts, sep)`: part `k` sits at `Start(parts, k)`, followed by
      the separator unless it is the last part. With the length in `Join`'s contract
      this fixes every character of the joined string. */
  lemma {:induction false} JoinLayout(parts: seq<string>, sep: char, k: nat)
    requires k < |parts|
    ensures var s, at := Join(parts, sep), Start(parts, k);
      && at + |parts[k]| <= |s|
      && s[at..at + |parts[k]|] == parts[k]
      && (k < |parts| - 1 ==> at + |parts[k]| < |s| && s[at + |parts[k]|] == sep)
  {
    if k > 0 {
      var tail := parts[1..];
      JoinLayout(tail, sep, k - 1);
      assert parts[..k][1..] == tail[..k - 1];
      assert Start(parts, k) == |parts[0]| + 1 + Start(tail, k - 1);
    }
  }

  /** Python's `s.split(sep)` for a one-character separator: the maximal runs between
      separators, empty runs included, so never fewer than one field. */
  function Split(s: string, sep: char): (fields: seq<string>)
    ensures |fields| >= 1
    ensures forall k :: 0 <= k < |fields| ==> sep !in fields[k]
  {
    if |s| == 0 then [""]
    else
      var rest := Split(s[1..], sep);
      if s[0] == sep then [""] + rest
      else [[s[0]] + rest[0]] + rest[1..]
  }

  /** A string without the separator is a single field. */
  lemma {:induction false} SplitWithoutSeparator(x: string, sep: char)
    requires sep !in x
    ensures Split(x, sep) == [x]
  {
    if |x| > 0 {
      SplitWithoutSeparator(x[1..], sep);
      assert [x[0]] + x[1..] == x;
    }
  }

  /** Splitting at the first separator: the run before it, then the fields of the rest. */
  lemma {:induction false} SplitAtFirst(x: string, y: string, sep: char)
    requires sep !in x
    ensures Split(x + [sep] + y, sep) == [x] + Split(y, sep)
  {
    var s := x + [sep] + y;
    if |x| == 0 {
      assert s[1..] == y;
    } else {
      assert s[1..] == x[1..] + [sep] + y;
      SplitAtFirst(x[1..], y, sep);
      assert [x[0]] + x[1..] == x;
    }
  }

  /** `Split` inverts `Join` when no part holds the separator and there is a part. */
  lemma {:induction false} SplitJoin(parts: seq<string>, sep: char)
    requires |parts| >= 1
    requires forall k :: 0 <= k < |parts| ==> sep !in parts[k]
    ensures Split(Join(parts, sep), sep) == parts
  {
    if |parts| == 1 {
      SplitWithoutSeparator(parts[0], sep);
    } else {
      SplitJoin(parts[1..], sep);
      SplitAtFirst(parts[0], Join(parts[1..], sep), sep);
      assert [parts[0]] + parts[1..] == parts;
    }
  }

  /** `Join` never introduces a character that is neither the separator nor in a part. */
  lemma {:induction false} JoinAvoids(parts: seq<string>, sep: char, c: char)
    requires c != sep
    requires forall k :: 0 <= k < |parts| ==> c !in parts[k]
    ensures c !in Join(parts, sep)
  {
    if |parts| > 1 {
      JoinAvoids(parts[1..], sep, c);
    }
  }

  /** The text printed for the levels: the levels joined by spaces, or `None`. */
  function LevelsText(levels: Option<seq<string>>): (text: string)
    ensures levels.None? ==> text == "None"
    ensures levels == Some([]) ==> text == ""
    ensures levels.Some? ==> text == Join(levels.value, ' ')
    ensures levels.Some? && |levels.value| >= 1 && (forall k :: 0 <= k < |levels.value| ==> ' ' !in levels.value[k])
            ==> Split(text, ' ') == levels.value
  {
    match levels
    case None => "None"
    case Some(ls) =>
      assert |ls| >= 1 && (forall k :: 0 <= k < |ls| ==> ' ' !in ls[k]) ==> Split(Join(ls, ' '), ' ') == ls by {
        if |ls| >= 1 && (forall k :: 0 <= k < |ls| ==> ' ' !in ls[k]) {
          SplitJoin(ls, ' ');
        }
      }
      Join(ls, ' ')
  }

  /** The job descriptors whose line can be read back unambiguously: no comma
      anywhere, no space inside a year or level, at least one year, and levels that
      are absent or a non-empty list other than the single word `None`. */
  ghost predicate Readable(job: Job<string, string, string>)
  {
    && |job.years| >= 1
    && (forall k :: 0 <= k < |job.years| ==> ',' !in job.years[k] && ' ' !in job.years[k])
    && ',' !in job.variable
    && (job.levels.Some? ==>
          && |job.levels.value| >= 1
          && job.levels.value != ["None"]
          && forall k :: 0 <= k < |job.levels.value| ==> ',' !in job.levels.value[k] && ' ' !in job.levels.value[k])
  }

  /** Reads a printed line back into a descriptor; `None` unless it has exactly three
      comma-separated fields. */
  function ParseJob(line: string): Option<Job<string, string, string>>
  {
    var fields := Split(line, ',');
    if |fields| != 3 then None
    else Some(Job(Split(fields[0], ' '), fields[1],
                  if fields[2] == "None" then None else Some(Split(fields[2], ' '))))
  }

  /** The line printed for one job descriptor: the years joined by spaces, the
      variable and the levels text, separated by commas. Reading it back gives the
      descriptor whenever that is possible at all. */
  function RenderJob(job: Job<string, string, string>): (line: string)
    ensures line == Join(job.years, ' ') + "," + job.variable + "," + LevelsText(job.levels)
    ensures Readable(job) ==> ParseJob(line) == Some(job)
  {
    var line := Join(job.years, ' ') + "," + job.variable + "," + LevelsText(job.levels);
    assert Readable(job) ==> ParseJob(line) == Some(job) by {
      if Readable(job) {
        RenderJobRoundTrip(job);
      }
    }
    line
  }

  lemma RenderJobRoundTrip(job: Job<string, string, string>)
    requires Readable(job)
    ensures ParseJob(Join(job.years, ' ') + "," + job.variable + "," + LevelsText(job.levels)) == Some(job)
  {
    var ys, lv := Join(job.years, ' '), LevelsText(job.levels);
    JoinAvoids(job.years, ' ', ',');
    if job.levels.Some? {
      JoinAvoids(job.levels.value, ' ', ',');
      SplitJoin(job.levels.value, ' ');
      if lv == "None" {
        SplitWithoutSeparator("None", ' ');
        assert false;
      }
    }
    SplitWithoutSeparator(lv, ',');
    SplitAtFirst(job.variable, lv, ',');
    assert ys + "," + job.variable + "," + lv == ys + [','] + (job.variable + [','] + lv);
    SplitAtFirst(ys, job.variable + [','] + lv, ',');
    SplitJoin(job.years, ' ');
  }

  /** The printed format cannot tell absent levels from the one level named `None`. */
  lemma NoneLevelIsAmbiguous(years: seq<string>, variable: string)
    ensures RenderJob(Job(years, variable, None)) == RenderJob(Job(years, variable, Some(["None"])))
  {
  }

  /** The command line as written unpacks the strategy's result into three names; the
      job count returned when no index is given is a bare integer, so unpacking it
      raises. */
  function RenderAnswerAsWritten(answer: Answer<string, string, string>): (r: Result<string, Exception>)
    ensures r.Failure? <==> answer.JobCount?
    ensures r.Failure? ==> r.error == TypeError
    ensures answer.Descriptor? ==> r == Success(RenderJob(answer.job))
    ensures answer.Descriptor? && Readable(answer.job) ==> r.Success? && ParseJob(r.value) == Some(answer.job)
  {
    match answer
    case JobCount(_) => Failure(TypeError)
    case Descriptor(job) => Success(RenderJob(job))
  }

  /** Sizing a job array from the command line fails as written: the count of the
      five-year, three-variable example cannot be printed. */
  lemma CountOutputFails(levels: seq<string>)
    ensures var answer := NYears(["2000", "2001", "2002", "2003", "2004"], 1, ["t2m"], ["u", "v"], Some(levels), None);
      answer == Success(JobCount(15)) && RenderAnswerAsWritten(answer.value) == Failure(TypeError)
  {
  }

  /** The corrected output: the job count printed in decimal, a descriptor as its line. */
  function RenderAnswer(answer: Answer<string, string, string>): (line: string)
    ensures answer.JobCount? ==> Decimal.Canonical(line) && Decimal.ParseInt(line) == Some(answer.count)
    ensures answer.Descriptor? ==> line == RenderJob(answer.job)
    ensures answer.Descriptor? && Readable(answer.job) ==> ParseJob(line) == Some(answer.job)
  {
    match answer
    case JobCount(n) => Decimal.Str(n)
    case Descriptor(job) => RenderJob(job)
  }
}
