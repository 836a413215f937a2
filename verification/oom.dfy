/** check_oom: counts the kernel log lines that report the out-of-memory
    killer. One invocation writes two lines (the process that invoked it
    and the process it killed), and for that case the text names both and
    the memory the kill freed. */
module Oom {
  import opened Wrappers
  import opened Lines
  import opened Numbers
  import opened Probe

  const DisabledText: string := "check_oom is disabled by config setting"
  const SpreeText: string := "WARNING: oom-killer was invoked and went on a killing spree. Check /var/log/kern.log and reset with dmesg -c when finished"
  const QuietText: string := "OK: No OOM killer activity found in dmesg output"

  /** The pattern of the second kernel-log search: the killed process id,
      the fourth column of the killed line (`nil`, printing empty, when
      there is none), followed by `]`. */
  function PidPattern(killed: string): string {
    var ws := Words(killed);
    (if |ws| > 3 then ws[3] else "") + "]"
  }

  /** The resident pages of the killed process: the fifth column from the
      end of the second search's output, 0 when there are fewer columns. */
  function RssPages(found: string): int {
    match FromEnd(Words(found), 5)
    case None => 0
    case Some(w) => ToI(w)
  }

  /** The megabytes freed, as written: whole 1024-page blocks times 4. */
  function FreedMb(pages: int): int {
    pages / 1024 * 4
  }

  /** The warning text, from the name of the invoking process, the columns
      that describe the kill, and the megabytes freed. */
  function KillText(invoker: string, kill: seq<string>, freedMb: int): string {
    "WARNING: " + invoker + " invoked oom-killer: " + JoinWith(kill, ' ') + " to free " + ShowInt(freedMb) + "MB - reset with dmesg -c when finished"
  }

  /** The text for one invocation. The second to fifth columns of the
      killed line describe the kill; a killed line of white space alone has
      no columns to slice, and slicing it yields `nil`, which has no `join`. */
  function TwoLineText(invoked: string, killed: string, found: string): (r: Result<string, Crash>)
    ensures r.Failure? <==> Words(killed) == []
  {
    var iw, kw := Words(invoked), Words(killed);
    if kw == [] then Failure(NoMethodError)
    else
      var invoker := if |iw| > 1 then iw[1] else "";
      Success(KillText(invoker, kw[1..if |kw| < 5 then |kw| else 5], FreedMb(RssPages(found))))
  }

  function LinesMetric(n: nat): seq<Metric> {
    [Metric("oom_killer_lines", ShowNat(n), [])]
  }

  /** check_oom with the killing-spree case from `spreeFrom` lines up.
      `grep` is the second kernel-log search, from its pattern to its output. */
  function CheckOomFrom(spreeFrom: nat, enabled: bool, dmesg: string, grep: string -> string): Result<Outcome, Crash> {
    if !enabled then Success(Outcome(OK, DisabledText, Some("")))
    else
      var ls := SplitLines(dmesg);
      var perf := Some(RenderMetrics(LinesMetric(|ls|)));
      if |ls| == 2 then
        match TwoLineText(ls[0], ls[1], grep(PidPattern(ls[1])))
        case Failure(e) => Failure(e)
        case Success(t) => Success(Outcome(WARNING, t, perf))
      else if |ls| >= spreeFrom then Success(Outcome(WARNING, SpreeText, perf))
      else Success(Outcome(OK, QuietText, Some("")))
  }

  /** check_oom as written: a killing spree needs more than three lines, so
      exactly three lines report no activity. */
  function CheckOomAsWritten(enabled: bool, dmesg: string, grep: string -> string): (r: Result<Outcome, Crash>)
    ensures r.Success? ==> r.value.code == OK || r.value.code == WARNING
    ensures r.Failure? ==> enabled && |SplitLines(dmesg)| == 2
  {
    CheckOomFrom(4, enabled, dmesg, grep)
  }

  /** check_oom with every count of lines beyond one invocation reported as
      a killing spree. */
  function CheckOom(enabled: bool, dmesg: string, grep: string -> string): (r: Result<Outcome, Crash>)
    ensures var w := CheckOomAsWritten(enabled, dmesg, grep);
      && (r.Failure? <==> w.Failure?)
      && (w.Success? && w.value.code == WARNING ==> r == w)
      && (r != w ==> enabled && |SplitLines(dmesg)| == 3 && r.value.code == WARNING)
  {
    CheckOomFrom(3, enabled, dmesg, grep)
  }

  // ---------------------------------------------------------------------
  // Properties
  // ---------------------------------------------------------------------

  /** A disabled probe is OK with empty perfdata, whatever the log holds. */
  lemma DisabledIsQuiet(dmesg: string, grep: string -> string)
    ensures CheckOom(false, dmesg, grep) == Success(Outcome(OK, DisabledText, Some("")))
    ensures CheckOomAsWritten(false, dmesg, grep) == Success(Outcome(OK, DisabledText, Some("")))
  {
  }

  /** The probe fails only for one invocation whose killed line is blank. */
  lemma CrashIffBlankKill(enabled: bool, dmesg: string, grep: string -> string)
    ensures var ls := SplitLines(dmesg);
      && (CheckOom(enabled, dmesg, grep).Failure? <==> enabled && |ls| == 2 && Words(ls[1]) == [])
      && (CheckOomAsWritten(enabled, dmesg, grep).Failure? <==> enabled && |ls| == 2 && Words(ls[1]) == [])
  {
  }

  /** As written the probe warns for two lines and for more than three. */
  lemma AsWrittenWarnings(dmesg: string, grep: string -> string)
    requires CheckOomAsWritten(true, dmesg, grep).Success?
    ensures var n := |SplitLines(dmesg)|;
      CheckOomAsWritten(true, dmesg, grep).value.code == WARNING <==> n == 2 || n > 3
  {
  }

  /** As written, three lines of killer activity are reported as none, with
      empty perfdata. */
  lemma ThreeLinesAsWritten(a: string, b: string, c: string, grep: string -> string)
    requires '\n' !in a && '\n' !in b && '\n' !in c && c != ""
    ensures CheckOomAsWritten(true, a + "\n" + b + "\n" + c + "\n", grep) == Success(Outcome(OK, QuietText, Some("")))
  {
    var ls := [a, b, c];
    SplitLinesOfOutput(ls);
    assert JoinWith(ls, '\n') == a + "\n" + b + "\n" + c by {
      assert ls[1..] == [b, c];
      assert [b, c][1..] == [c];
      assert JoinWith([b, c], '\n') == b + "\n" + c;
      assert JoinWith(ls, '\n') == a + "\n" + (b + "\n" + c);
    }
  }

  /** With the threshold corrected the probe warns exactly when the log
      holds lines of killer activity beyond a lone one. */
  lemma ActivityWarns(dmesg: string, grep: string -> string)
    requires CheckOom(true, dmesg, grep).Success?
    ensures var r, n := CheckOom(true, dmesg, grep).value, |SplitLines(dmesg)|;
      && (r.code == WARNING <==> n >= 2)
      && (r.code == OK <==> n < 2)
      && (r.code == OK ==> r == Outcome(OK, QuietText, Some("")))
  {
  }

  /** A warning carries one `oom_killer_lines` item for the lines read. */
  lemma WarningPerfdata(enabled: bool, dmesg: string, grep: string -> string)
    requires CheckOom(enabled, dmesg, grep).Success? && CheckOom(enabled, dmesg, grep).value.code == WARNING
    ensures CheckOom(enabled, dmesg, grep).value.perfdata == Some(RenderMetrics(LinesMetric(|SplitLines(dmesg)|)))
  {
  }

  /** That item is labelled `oom_killer_lines` and its value reads back as
      the number of lines. */
  lemma LinesMetricReadsBack(n: nat)
    ensures PerfLabels(RenderMetrics(LinesMetric(n))) == ["oom_killer_lines"]
    ensures ToI(LinesMetric(n)[0].value) == n
  {
    assert PlainName("oom_killer_lines");
    ShowIntHasNoSpace(n);
    LabelsOfNamed(LinesMetric(n), ["oom_killer_lines"]);
    ToIShowInt(n);
  }

  /** The freed megabytes are a multiple of 4 and understate the exact
      `pages * 4 / 1024` by less than 4. */
  lemma FreedRoundsDown(pages: int)
    ensures FreedMb(pages) % 4 == 0
    ensures FreedMb(pages) <= pages * 4 / 1024 < FreedMb(pages) + 4
  {
    var q := pages / 1024;
    assert pages == 1024 * q + pages % 1024;
    assert pages * 4 == 1024 * (4 * q) + 4 * (pages % 1024);
  }

  /** One invocation in the usual layout: the text names the invoker (the
      second column of the first line) and the second to fifth columns of
      the killed line, and the second search looks for the killed pid. */
  lemma OneInvocation(iw: seq<string>, kw: seq<string>, grep: string -> string)
    requires forall i | 0 <= i < |iw| :: iw[i] != "" && NoSpace(iw[i])
    requires forall i | 0 <= i < |kw| :: kw[i] != "" && NoSpace(kw[i])
    requires |iw| >= 2 && |kw| >= 5
    ensures var invoked, killed := JoinWith(iw, ' '), JoinWith(kw, ' ');
      && PidPattern(killed) == kw[3] + "]"
      && CheckOom(true, invoked + "\n" + killed + "\n", grep)
         == Success(Outcome(WARNING, KillText(iw[1], kw[1..5], FreedMb(RssPages(grep(kw[3] + "]")))), Some(RenderMetrics(LinesMetric(2)))))
  {
    var invoked, killed := JoinWith(iw, ' '), JoinWith(kw, ' ');
    WordsOfJoin(iw);
    WordsOfJoin(kw);
    assert '\n' !in invoked && '\n' !in killed by {
      NoLineFeedInJoin(iw);
      NoLineFeedInJoin(kw);
    }
    assert killed != "" by {
      assert Words(killed) != [];
    }
    SplitTwoLines(invoked, killed);
  }

  /** Words joined by spaces hold no line feed. */
  lemma {:induction false} NoLineFeedInJoin(ws: seq<string>)
    requires forall i | 0 <= i < |ws| :: NoSpace(ws[i])
    ensures '\n' !in JoinWith(ws, ' ')
    decreases |ws|
  {
    if |ws| > 1 {
      NoLineFeedInJoin(ws[1..]);
      assert '\n' !in ws[0] by {
        assert forall j | 0 <= j < |ws[0]| :: !IsSpace(ws[0][j]);
      }
    } else if |ws| == 1 {
      assert forall j | 0 <= j < |ws[0]| :: !IsSpace(ws[0][j]);
    }
  }
}
