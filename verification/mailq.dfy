/** check_mailq: the number of queued messages, read as the last word of
    the last line `mailq` prints. */
module Mailq {
  import opened Wrappers
  import opened Lines
  import opened Numbers
  import opened Probe

  /** `to_i` of the last word; `nil.to_i`, 0, when there is no word. */
  function QueueCount(output: string): int {
    match FromEnd(Words(output), 1)
    case None => 0
    case Some(w) => ToI(w)
  }

  /** The probe's result for the last line of `mailq`. */
  function CheckMailq(warn: int, crit: int, output: string): (r: Outcome)
    ensures OK <= r.code <= CRITICAL
    ensures r.perfdata.Some?
  {
    var count := QueueCount(output);
    var code := Ladder(count as real, warn as real, crit as real);
    Outcome(code, LadderWord(code) + " - mailq messages: " + ShowInt(count),
            Some(RenderMetrics(MailqMetrics(count, warn, crit))))
  }

  function MailqMetrics(count: int, warn: int, crit: int): seq<Metric> {
    [Metric("mailq_count", ShowInt(count), [ShowInt(warn), ShowInt(crit)])]
  }

  // ---------------------------------------------------------------------
  // Properties
  // ---------------------------------------------------------------------

  /** A summary line ending in a number, such as sendmail's
      `Total requests: 3`, is read as that number. */
  lemma CountOfSummary(ws: seq<string>, n: int)
    requires forall i | 0 <= i < |ws| :: ws[i] != "" && NoSpace(ws[i])
    ensures QueueCount(JoinWith(ws + [ShowInt(n)], ' ') + "\n") == n
  {
    var all := ws + [ShowInt(n)];
    ShowIntHasNoSpace(n);
    WordsOfJoinedLineSnoc(ws, ShowInt(n));
    assert FromEnd(Words(JoinWith(all, ' ') + "\n"), 1) == Some(ShowInt(n));
    ToIShowInt(n);
  }

  /** A summary line that ends in a word, such as Postfix's
      `-- 2 Kbytes in 3 Requests.`, or an empty queue's message, counts as 0. */
  lemma CountOfWordSummary(ws: seq<string>, last: string)
    requires forall i | 0 <= i < |ws| :: ws[i] != "" && NoSpace(ws[i])
    requires last != "" && NoSpace(last) && !IsDigit(last[0]) && last[0] != '-' && last[0] != '+'
    ensures QueueCount(JoinWith(ws + [last], ' ') + "\n") == 0
  {
    var all := ws + [last];
    WordsOfJoinedLineSnoc(ws, last);
    assert FromEnd(Words(JoinWith(all, ' ') + "\n"), 1) == Some(last);
    assert Signed(last) == (false, last);
  }

  /** Empty or blank output counts as 0. */
  lemma CountOfBlank(output: string)
    requires AllSpace(output)
    ensures QueueCount(output) == 0
  {
    WordsOfSpace(output);
  }

  /** The code is CRITICAL from `crit` messages, WARNING from `warn`, and OK
      below both. */
  lemma MailqBands(warn: int, crit: int, output: string)
    ensures var c, n := CheckMailq(warn, crit, output).code, QueueCount(output);
      && (c == CRITICAL <==> n >= crit)
      && (c == WARNING <==> warn <= n < crit)
      && (c == OK <==> n < warn && n < crit)
  {
    LadderBands(QueueCount(output) as real, warn as real, crit as real);
  }

  /** The perfdata is one `mailq_count` item whose value reads back as the
      count. */
  lemma MailqPerfdata(warn: int, crit: int, output: string)
    ensures var ms := MailqMetrics(QueueCount(output), warn, crit);
      && CheckMailq(warn, crit, output).perfdata == Some(RenderMetrics(ms))
      && PerfLabels(RenderMetrics(ms)) == ["mailq_count"]
      && ToI(ms[0].value) == QueueCount(output)
  {
    var n := QueueCount(output);
    ShowIntHasNoSpace(n);
    ShowIntHasNoSpace(warn);
    ShowIntHasNoSpace(crit);
    assert PlainName("mailq_count");
    LabelsOfNamed(MailqMetrics(n, warn, crit), ["mailq_count"]);
    ToIShowInt(n);
  }
}
