/** The numeric row the CPU and swap probes look for in `sar` output, and
    the order in which they look for it.

    The regular expressions of check_linux.rb (six, or two, groups of
    `[0-9]+[,.][0-9]+` separated by `\s+` and followed by `$`) are read here
    from the end of the line backwards: a line matches when it ends in `n`
    such tokens separated by runs of white space, with nothing after the
    last one. Of the first token the match keeps the longest digit run
    before its separator, as the leftmost match of the regex does. */
module SarRow {
  import opened Wrappers
  import opened Lines
  import opened Numbers
  import opened Scan
  import opened Probe

  /** One number as `sar` prints it: digits, a point or a comma, digits. */
  datatype Token = Token(whole: string, sep: char, frac: string)

  predicate ValidToken(t: Token) {
    && t.whole != [] && AllDigits(t.whole)
    && (t.sep == '.' || t.sep == ',')
    && t.frac != [] && AllDigits(t.frac)
  }

  predicate ValidTokens(ts: seq<Token>) {
    forall i | 0 <= i < |ts| :: ValidToken(ts[i])
  }

  function RenderToken(t: Token): string {
    t.whole + [t.sep] + t.frac
  }

  /** The token's `to_f`: a comma ends the number, so `83,7` is 83.0. */
  function TokenValue(t: Token): real
    requires ValidToken(t)
  {
    ToF(RenderToken(t))
  }

  /** The token's `to_f.round`. */
  function Rounded(t: Token): int
    requires ValidToken(t)
  {
    RoundHalfAway(TokenValue(t))
  }

  /** A token rounds to its whole part, plus one when it has a decimal
      point and its first fractional digit is 5 or more. */
  lemma RoundedToken(t: Token)
    requires ValidToken(t)
    ensures Rounded(t) == DigitsValue(t.whole) + (if t.sep == '.' && DigitValue(t.frac[0]) >= 5 then 1 else 0)
  {
    ToFDecimal(t.whole, t.sep, t.frac);
    if t.sep == '.' {
      RoundDecimal(t.whole, t.frac);
    } else {
      RoundWithFraction(DigitsValue(t.whole), 0.0);
    }
  }

  // ---------------------------------------------------------------------
  // Reading tokens off the end of a line
  // ---------------------------------------------------------------------

  /** Reads the token that ends `s`; returns the text before it too. */
  function TokenAtEnd(s: string): (r: Option<(string, Token)>)
    ensures r.Some? ==> ValidToken(r.value.1)
    ensures r.Some? ==> s == r.value.0 + RenderToken(r.value.1)
    ensures r.Some? ==> EndsOutsideNumber(r.value.0)
  {
    var i := DigitSuffixStart(s);
    if i == |s| || i == 0 || (s[i - 1] != '.' && s[i - 1] != ',') then None
    else TokenBefore(s, i)
  }

  /** The token whose fraction starts at `i`, after the separator at `i - 1`. */
  function TokenBefore(s: string, i: nat): (r: Option<(string, Token)>)
    requires 0 < i < |s| && AllDigits(s[i..]) && (s[i - 1] == '.' || s[i - 1] == ',')
    ensures r.Some? ==> ValidToken(r.value.1)
    ensures r.Some? ==> s == r.value.0 + RenderToken(r.value.1)
    ensures r.Some? ==> EndsOutsideNumber(r.value.0)
  {
    var j := DigitSuffixStart(s[..i - 1]);
    if j == i - 1 then None
    else
      var t := Token(s[j..i - 1], s[i - 1], s[i..]);
      assert s[..i - 1][j..] == s[j..i - 1];
      assert s == s[..j] + RenderToken(t);
      Some((s[..j], t))
  }

  /** `n` tokens separated by the white-space runs `gaps`, as `sar` lays out a row. */
  function RenderRow(ts: seq<Token>, gaps: seq<string>): string
    requires |ts| >= 1 && |gaps| == |ts| - 1
    decreases |ts|
  {
    if |ts| == 1 then RenderToken(ts[0])
    else RenderRow(ts[..|ts| - 1], gaps[..|gaps| - 1]) + gaps[|gaps| - 1] + RenderToken(ts[|ts| - 1])
  }

  predicate ValidGaps(gaps: seq<string>) {
    forall i | 0 <= i < |gaps| :: gaps[i] != [] && AllSpace(gaps[i])
  }

  /** The `n` tokens that end `s`, with the white space between them and the
      text before the first. */
  function TokensAtEnd(s: string, n: nat): (r: Option<(string, seq<Token>, seq<string>)>)
    requires n >= 1
    ensures r.Some? ==> |r.value.1| == n && |r.value.2| == n - 1
    ensures r.Some? ==> ValidTokens(r.value.1) && ValidGaps(r.value.2)
    ensures r.Some? ==> EndsOutsideNumber(r.value.0)
    ensures r.Some? ==> s == r.value.0 + RenderRow(r.value.1, r.value.2)
    decreases n
  {
    match TokenAtEnd(s)
    case None => None
    case Some((p, t)) =>
      if n == 1 then Some((p, [t], []))
      else
        var w := SpaceSuffixStart(p);
        if w == |p| then None
        else
          match TokensAtEnd(p[..w], n - 1)
          case None => None
          case Some((q, ts, gaps)) =>
            ExtendRow(s, p, w, t, q, ts, gaps);
            Some((q, ts + [t], gaps + [p[w..]]))
  }

  /** One more token, and the white space before it, extend a row. */
  lemma ExtendRow(s: string, p: string, w: nat, t: Token, q: string, ts: seq<Token>, gaps: seq<string>)
    requires ValidToken(t) && s == p + RenderToken(t)
    requires w < |p| && AllSpace(p[w..])
    requires |ts| >= 1 && |gaps| == |ts| - 1 && ValidTokens(ts) && ValidGaps(gaps)
    requires p[..w] == q + RenderRow(ts, gaps)
    ensures ValidTokens(ts + [t]) && ValidGaps(gaps + [p[w..]])
    ensures s == q + RenderRow(ts + [t], gaps + [p[w..]])
  {
    RenderRowSnoc(ts, gaps, p[w..], t);
    Regroup(s, p, w, q, RenderRow(ts, gaps), RenderToken(t));
  }

  lemma Regroup(s: string, p: string, w: nat, q: string, row: string, u: string)
    requires s == p + u && w <= |p| && p[..w] == q + row
    ensures s == q + (row + p[w..] + u)
  {
    assert p == p[..w] + p[w..];
  }

  lemma RenderRowSnoc(ts: seq<Token>, gaps: seq<string>, g: string, t: Token)
    requires |ts| >= 1 && |gaps| == |ts| - 1
    ensures RenderRow(ts + [t], gaps + [g]) == RenderRow(ts, gaps) + g + RenderToken(t)
  {
    var ts', gaps' := ts + [t], gaps + [g];
    assert ts'[..|ts'| - 1] == ts;
    assert gaps'[..|gaps'| - 1] == gaps;
  }

  /** `line` is `prefix`, then the tokens `ts` separated by the white-space runs `gaps`. */
  predicate RowLayout(line: string, prefix: string, ts: seq<Token>, gaps: seq<string>) {
    && |ts| >= 1 && |gaps| == |ts| - 1
    && ValidTokens(ts) && ValidGaps(gaps) && EndsOutsideNumber(prefix)
    && line == prefix + RenderRow(ts, gaps)
  }

  /** The regex match against one line: the `n` captured tokens, or `nil`.
      A match is always a genuine row of `n` tokens at the end of the line. */
  function MatchRow(line: string, n: nat): (r: Option<seq<Token>>)
    requires n >= 1
    ensures r.Some? ==> |r.value| == n && ValidTokens(r.value)
    ensures r.Some? ==> exists prefix, gaps :: RowLayout(line, prefix, r.value, gaps)
  {
    match TokensAtEnd(line, n)
    case None => None
    case Some((prefix, ts, gaps)) =>
      assert RowLayout(line, prefix, ts, gaps);
      Some(ts)
  }

  // ---------------------------------------------------------------------
  // The matcher accepts exactly the rows sar writes
  // ---------------------------------------------------------------------

  /** A token written after text that does not end in a digit is read back. */
  lemma TokenAtEndOf(a: string, t: Token)
    requires EndsOutsideNumber(a) && ValidToken(t)
    ensures TokenAtEnd(a + RenderToken(t)) == Some((a, t))
  {
    var s, i := a + RenderToken(t), |a| + |t.whole| + 1;
    TokenLayoutOf(a, t);
    TokenAtEndIs(s, i, a, t);
  }

  /** Where the digit runs of `s` lie when `s` is `a` followed by `t`, the
      separator sitting at `i - 1`. */
  predicate TokenLayout(s: string, i: nat, a: string, t: Token) {
    && 0 < i < |s| && DigitSuffixStart(s) == i
    && (s[i - 1] == '.' || s[i - 1] == ',')
    && |a| < i - 1 && DigitSuffixStart(s[..i - 1]) == |a|
    && s[..|a|] == a && Token(s[|a|..i - 1], s[i - 1], s[i..]) == t
  }

  lemma TokenLayoutOf(a: string, t: Token)
    requires EndsOutsideNumber(a) && ValidToken(t)
    ensures TokenLayout(a + RenderToken(t), |a| + |t.whole| + 1, a, t)
  {
    FracRun(a, t);
    WholeRun(a, t);
    TokenPieces(a, t);
  }

  /** `TokenAtEnd` once the digit runs and the slices are known. */
  lemma TokenAtEndIs(s: string, i: nat, a: string, t: Token)
    requires TokenLayout(s, i, a, t)
    ensures TokenAtEnd(s) == Some((a, t))
  {
    TokenAtEndAt(s, i, |a|);
  }

  /** The decimals of a token are the digit run that ends it. */
  lemma FracRun(a: string, t: Token)
    requires ValidToken(t)
    ensures var s, i := a + RenderToken(t), |a| + |t.whole| + 1;
      0 < i < |s| && DigitSuffixStart(s) == i && s[i - 1] == t.sep
  {
    var w := a + t.whole + [t.sep];
    TokenSlices(a, t.whole, t.sep, t.frac);
    assert EndsOutsideNumber(w) by {
      assert w[|w| - 1] == t.sep;
    }
    DigitSuffixStartOf(w, t.frac);
  }

  /** The whole part of a token after a non-digit is the digit run before
      its separator. */
  lemma WholeRun(a: string, t: Token)
    requires EndsOutsideNumber(a) && ValidToken(t)
    ensures var s, i := a + RenderToken(t), |a| + |t.whole| + 1;
      i - 1 <= |s| && DigitSuffixStart(s[..i - 1]) == |a|
  {
    TokenSlices(a, t.whole, t.sep, t.frac);
    DigitSuffixStartOf(a, t.whole);
  }

  /** The slices of a written token give back its text before and its parts. */
  lemma TokenPieces(a: string, t: Token)
    ensures var s, i := a + RenderToken(t), |a| + |t.whole| + 1;
      && i <= |s| && s[..|a|] == a
      && Token(s[|a|..i - 1], s[i - 1], s[i..]) == t
  {
    TokenSlices(a, t.whole, t.sep, t.frac);
  }

  /** What `TokenAtEnd` returns once the two digit runs are located. */
  lemma TokenAtEndAt(s: string, i: nat, j: nat)
    requires 0 < i < |s| && DigitSuffixStart(s) == i
    requires s[i - 1] == '.' || s[i - 1] == ','
    requires DigitSuffixStart(s[..i - 1]) == j && j < i - 1
    ensures TokenAtEnd(s) == Some((s[..j], Token(s[j..i - 1], s[i - 1], s[i..])))
  {
    assert TokenAtEnd(s) == TokenBefore(s, i);
    TokenBeforeAt(s, i, j);
  }

  /** What `TokenBefore` returns once the whole part is located. */
  lemma TokenBeforeAt(s: string, i: nat, j: nat)
    requires 0 < i < |s| && AllDigits(s[i..]) && (s[i - 1] == '.' || s[i - 1] == ',')
    requires DigitSuffixStart(s[..i - 1]) == j && j < i - 1
    ensures TokenBefore(s, i) == Some((s[..j], Token(s[j..i - 1], s[i - 1], s[i..])))
  {
  }

  /** The pieces of a token written after `a`. */
  lemma TokenSlices(a: string, whole: string, sep: char, frac: string)
    ensures var s, i := a + (whole + [sep] + frac), |a| + |whole| + 1;
      && s == (a + whole + [sep]) + frac
      && s[i - 1] == sep && s[..i - 1] == a + whole
      && s[|a|..i - 1] == whole && s[i..] == frac && s[..|a|] == a
  {
  }

  lemma RenderRowEndsInDigit(ts: seq<Token>, gaps: seq<string>)
    requires |ts| >= 1 && |gaps| == |ts| - 1 && ValidTokens(ts)
    ensures var r := RenderRow(ts, gaps); r != [] && IsDigit(r[|r| - 1])
  {
    var t := ts[|ts| - 1];
    var r := RenderRow(ts, gaps);
    assert r[|r| - 1] == t.frac[|t.frac| - 1];
  }

  /** Any text that does not end in a digit, followed by a row of `n` tokens
      separated by white space, matches, and the match captures that row. */
  lemma {:induction false} MatchRenderedRow(prefix: string, ts: seq<Token>, gaps: seq<string>)
    requires |ts| >= 1 && |gaps| == |ts| - 1
    requires ValidTokens(ts) && ValidGaps(gaps) && EndsOutsideNumber(prefix)
    ensures TokensAtEnd(prefix + RenderRow(ts, gaps), |ts|) == Some((prefix, ts, gaps))
    ensures MatchRow(prefix + RenderRow(ts, gaps), |ts|) == Some(ts)
    decreases |ts|
  {
    var n := |ts|;
    var t := ts[n - 1];
    if n == 1 {
      TokenAtEndOf(prefix, t);
      assert ts == [t] && gaps == [];
    } else {
      MatchRenderedRow(prefix, ts[..n - 1], gaps[..n - 2]);
      MatchOneMore(prefix, ts, gaps);
    }
  }

  /** A match of all tokens but the last extends to a match of the whole row. */
  lemma MatchOneMore(prefix: string, ts: seq<Token>, gaps: seq<string>)
    requires |ts| >= 2 && |gaps| == |ts| - 1
    requires ValidTokens(ts) && ValidGaps(gaps)
    requires var n := |ts|;
      TokensAtEnd(prefix + RenderRow(ts[..n - 1], gaps[..n - 2]), n - 1) == Some((prefix, ts[..n - 1], gaps[..n - 2]))
    ensures TokensAtEnd(prefix + RenderRow(ts, gaps), |ts|) == Some((prefix, ts, gaps))
  {
    var n := |ts|;
    var t := ts[n - 1];
    var init, gi := ts[..n - 1], gaps[..n - 2];
    var gap := gaps[n - 2];
    var body := prefix + RenderRow(init, gi);
    RowBeforeLast(prefix, ts, gaps);
    GapBeforeLast(prefix, init, gi, gap);
    TokensAtEndStep(body + gap, t, |body|, prefix, init, gi, n);
    InitAndLast(ts);
    InitAndLast(gaps);
  }

  /** One step of the matcher: the last token, the white space before it,
      and the row before that. */
  lemma TokensAtEndStep(p: string, t: Token, w: nat, q: string, ts: seq<Token>, gaps: seq<string>, n: nat)
    requires n >= 2 && EndsOutsideNumber(p) && ValidToken(t)
    requires w == SpaceSuffixStart(p) && w < |p|
    requires TokensAtEnd(p[..w], n - 1) == Some((q, ts, gaps))
    ensures TokensAtEnd(p + RenderToken(t), n) == Some((q, ts + [t], gaps + [p[w..]]))
  {
    TokenAtEndOf(p, t);
  }

  lemma InitAndLast<T>(xs: seq<T>)
    requires xs != []
    ensures xs[..|xs| - 1] + [xs[|xs| - 1]] == xs
  {
  }

  /** A row is the row before its last token, a gap, and that token. */
  lemma RowBeforeLast(prefix: string, ts: seq<Token>, gaps: seq<string>)
    requires |ts| >= 2 && |gaps| == |ts| - 1 && gaps[|gaps| - 1] != []
    ensures var n := |ts|;
      prefix + RenderRow(ts, gaps)
        == (prefix + RenderRow(ts[..n - 1], gaps[..n - 2]) + gaps[n - 2]) + RenderToken(ts[n - 1])
  {
    var n := |ts|;
    var row := RenderRow(ts[..n - 1], gaps[..n - 2]);
    assert row != [] by {
      assert |row| >= |RenderToken(ts[n - 2])|;
    }
    RowSlices(prefix, row, gaps[n - 2], RenderToken(ts[n - 1]));
  }

  /** The white space before the last token is found where it starts. */
  lemma GapBeforeLast(prefix: string, init: seq<Token>, gi: seq<string>, gap: string)
    requires |init| >= 1 && |gi| == |init| - 1 && ValidTokens(init)
    requires gap != [] && AllSpace(gap)
    ensures var body := prefix + RenderRow(init, gi); var p := body + gap;
      && EndsOutsideNumber(p) && SpaceSuffixStart(p) == |body|
      && p[..|body|] == body && p[|body|..] == gap
  {
    var row := RenderRow(init, gi);
    RenderRowEndsInDigit(init, gi);
    RowSlices(prefix, row, gap, "");
    SpaceSuffixStartOf(prefix + row, gap);
  }

  /** The pieces of a row of several tokens written after `prefix`. */
  lemma RowSlices(prefix: string, row: string, gap: string, u: string)
    requires row != [] && gap != []
    ensures var body := prefix + row; var p := body + gap;
      && prefix + (row + gap + u) == p + u
      && p[..|body|] == body && p[|body|..] == gap
      && p[|p| - 1] == gap[|gap| - 1]
      && body[|body| - 1] == row[|row| - 1]
  {
  }

  // ---------------------------------------------------------------------
  // Which line of which run the probes read
  // ---------------------------------------------------------------------

  /** Output and exit status of one `sar` command. */
  datatype SarRun = SarRun(output: string, status: int)

  /** The match against `output.split("\n")[-k]`; `nil` when there is no such line. */
  function RowAt(output: string, k: nat, n: nat): (r: Option<seq<Token>>)
    requires k >= 1 && n >= 1
    ensures r.Some? ==> k <= |SplitLines(output)| && |r.value| == n && ValidTokens(r.value)
  {
    match FromEnd(SplitLines(output), k)
    case None => None
    case Some(line) => MatchRow(line, n)
  }

  /** The `interactive_mode` value: `nil` (`None`) when the configuration
      has no `interactive` key, which is the default, otherwise the
      configured boolean. */
  type Setting = Option<bool>

  /** The probes' `interactive_mode == true` test: `nil` counts as off. */
  predicate IsOn(m: Setting) {
    m == Some(true)
  }

  /** The setting as string interpolation writes it: `nil` as nothing. */
  function ShowSetting(m: Setting): string {
    match m
    case None => ""
    case Some(b) => ShowBool(b)
  }

  /** The matched row, if any, and the `interactive_mode` value the probe reports. */
  datatype Selection = Selection(row: Option<seq<Token>>, interactive: Setting)

  /** check_sar_cpu and check_sar_swap: with interactive mode on, only the
      live run's second-to-last line; otherwise the report's second-to-last
      line, then its fourth-to-last, and when both miss, or when the report
      command failed, the live run's second-to-last line. `live` is the
      output of the short live sampling command, which the script runs only
      when it gets that far. Falling back to it sets the mode to `true`; a
      row from the report leaves the setting as it was, `nil` included. */
  function SelectRow(n: nat, interactive: Setting, report: SarRun, live: string): (sel: Selection)
    requires n >= 1
    ensures sel.row.Some? ==> |sel.row.value| == n && ValidTokens(sel.row.value)
    ensures sel.interactive == interactive || sel.interactive == Some(true)
    ensures !IsOn(sel.interactive) ==> !IsOn(interactive) && report.status == 0 && sel.row.Some?
    ensures IsOn(sel.interactive) ==> sel.row == RowAt(live, 2, n)
  {
    Choose(interactive, report.status, RowAt(report.output, 2, n), RowAt(report.output, 4, n), RowAt(live, 2, n))
  }

  /** The probes' nested conditionals, given the match at each candidate line. */
  function Choose(interactive: Setting, status: int, second: Option<seq<Token>>, fourth: Option<seq<Token>>,
                  liveSecond: Option<seq<Token>>): Selection
  {
    if IsOn(interactive) then Selection(liveSecond, Some(true))
    else
      var m := if second.None? then fourth else second;
      if m.None? || status != 0 then Selection(liveSecond, Some(true))
      else Selection(m, interactive)
  }

  /** Interactive mode, a failed report command, or a report with no
      matching line makes the probe fall back to the live run and report the
      mode as `true`. */
  lemma FallbackSetsOn(n: nat, interactive: Setting, report: SarRun, live: string)
    requires n >= 1
    requires IsOn(interactive) || report.status != 0 || (RowAt(report.output, 2, n).None? && RowAt(report.output, 4, n).None?)
    ensures SelectRow(n, interactive, report, live) == Selection(RowAt(live, 2, n), Some(true))
  {
  }

  /** The same policy as an ordered list of candidate lines. */
  datatype Source = Report | Live

  function Candidates(interactive: Setting, status: int, second: Option<seq<Token>>, fourth: Option<seq<Token>>,
                      liveSecond: Option<seq<Token>>): seq<(Source, Option<seq<Token>>)>
  {
    if IsOn(interactive) || status != 0 then [(Live, liveSecond)]
    else [(Report, second), (Report, fourth), (Live, liveSecond)]
  }

  /** The first candidate line that matches, tried in order; a row found in
      the report keeps the setting `kept`, anything else turns the mode on. */
  function FirstMatch(kept: Setting, cands: seq<(Source, Option<seq<Token>>)>): Selection {
    if cands == [] then Selection(None, Some(true))
    else if cands[0].1.Some? then Selection(cands[0].1, if cands[0].0 == Live then Some(true) else kept)
    else FirstMatch(kept, cands[1..])
  }

  /** The nested conditionals of the probes implement the ordered fallback
      list: report line -2, report line -4, live line -2; a failed report
      command or interactive mode leaves only the live line. */
  lemma ChooseIsFirstMatch(interactive: Setting, status: int, second: Option<seq<Token>>,
                           fourth: Option<seq<Token>>, liveSecond: Option<seq<Token>>)
    ensures Choose(interactive, status, second, fourth, liveSecond)
         == FirstMatch(interactive, Candidates(interactive, status, second, fourth, liveSecond))
  {
    var l := [(Live, liveSecond)];
    assert FirstMatch(interactive, l) == Selection(liveSecond, Some(true)) by {
      assert l[1..] == [];
    }
    if !IsOn(interactive) && status == 0 {
      var cands := Candidates(interactive, status, second, fourth, liveSecond);
      assert cands[1..] == [(Report, fourth), (Live, liveSecond)];
      assert cands[1..][1..] == l;
    }
  }

  // ---------------------------------------------------------------------
  // A report read back
  // ---------------------------------------------------------------------

  /** A row whose prefix and gaps hold no line feed is one line. */
  lemma {:induction false} RowIsOneLine(prefix: string, ts: seq<Token>, gaps: seq<string>)
    requires |ts| >= 1 && |gaps| == |ts| - 1 && ValidTokens(ts)
    requires '\n' !in prefix && forall i | 0 <= i < |gaps| :: '\n' !in gaps[i]
    ensures '\n' !in prefix + RenderRow(ts, gaps)
    decreases |ts|
  {
    var t := ts[|ts| - 1];
    TokenIsOneLine(t);
    if |ts| == 1 {
      NoLineFeedAppend(prefix, [], RenderToken(t));
      assert prefix + RenderRow(ts, gaps) == prefix + [] + RenderToken(t);
    } else {
      var init, gi, g := ts[..|ts| - 1], gaps[..|gaps| - 1], gaps[|gaps| - 1];
      assert ValidTokens(init) by {
        assert forall k | 0 <= k < |init| :: init[k] == ts[k];
      }
      assert forall k | 0 <= k < |gi| :: '\n' !in gi[k] by {
        assert forall k | 0 <= k < |gi| :: gi[k] == gaps[k];
      }
      RowIsOneLine(prefix, init, gi);
      NoLineFeedAppend(prefix + RenderRow(init, gi), g, RenderToken(t));
      assert prefix + RenderRow(ts, gaps) == (prefix + RenderRow(init, gi)) + g + RenderToken(t);
    }
  }

  /** A token is written without a line feed. */
  lemma TokenIsOneLine(t: Token)
    requires ValidToken(t)
    ensures '\n' !in RenderToken(t)
  {
    assert forall i | 0 <= i < |RenderToken(t)| :: IsDigit(RenderToken(t)[i]) || RenderToken(t)[i] == t.sep;
  }

  lemma NoLineFeedAppend(a: string, b: string, c: string)
    requires '\n' !in a && '\n' !in b && '\n' !in c
    ensures '\n' !in a + b + c
  {
  }

  /** A successful report whose second-to-last line is a rendered row gives
      that row back, outside interactive mode, without the live run: the
      lines before it and the final average line may hold anything but a
      line feed (the average line must not be empty, or `split` would drop
      it). The setting, off or unset, is reported unchanged. */
  lemma ReportRoundTrip(before: seq<string>, prefix: string, ts: seq<Token>, gaps: seq<string>,
                        average: string, mode: Setting, live: string)
    requires !IsOn(mode)
    requires |ts| >= 1 && |gaps| == |ts| - 1 && ValidTokens(ts) && ValidGaps(gaps)
    requires EndsOutsideNumber(prefix) && '\n' !in prefix
    requires forall i | 0 <= i < |gaps| :: '\n' !in gaps[i]
    requires forall i | 0 <= i < |before| :: '\n' !in before[i]
    requires average != "" && '\n' !in average
    ensures var report := SarRun(JoinWith(before + [prefix + RenderRow(ts, gaps), average], '\n') + "\n", 0);
      SelectRow(|ts|, mode, report, live) == Selection(Some(ts), mode)
  {
    RowIsOneLine(prefix, ts, gaps);
    ReportLines(before, prefix + RenderRow(ts, gaps), average);
    MatchRenderedRow(prefix, ts, gaps);
  }

  /** The line before the last of a report is found again by `split`. */
  lemma ReportLines(before: seq<string>, row: string, average: string)
    requires forall i | 0 <= i < |before| :: '\n' !in before[i]
    requires '\n' !in row && average != "" && '\n' !in average
    ensures FromEnd(SplitLines(JoinWith(before + [row, average], '\n') + "\n"), 2) == Some(row)
  {
    var ls := before + [row, average];
    LinesOfReport(before, row, average);
    SplitLinesOfOutput(ls);
    assert FromEnd(ls, 2) == Some(row) by {
      assert ls[|ls| - 2] == row;
    }
  }

  /** The lines of a report, none holding a line feed, the last not empty. */
  lemma LinesOfReport(before: seq<string>, row: string, average: string)
    requires forall i | 0 <= i < |before| :: '\n' !in before[i]
    requires '\n' !in row && average != "" && '\n' !in average
    ensures var ls := before + [row, average];
      && (forall i | 0 <= i < |ls| :: '\n' !in ls[i])
      && ls[|ls| - 1] != ""
  {
    var ls := before + [row, average];
    forall i | 0 <= i < |ls|
      ensures '\n' !in ls[i]
    {
      if i < |before| {
        assert ls[i] == before[i];
      }
    }
  }
}
