/** check_uptime and the `humanize` helper it prints with: a freshly booted
    host (up for no more than the given number of seconds) is a warning. */
module Uptime {
  import opened Wrappers
  import opened Lines
  import opened Numbers
  import opened Probe

  // ---------------------------------------------------------------------
  // humanize
  // ---------------------------------------------------------------------

  /** A unit of the mixed-radix split: how many of it make the next unit. */
  datatype Unit = Unit(count: nat, name: string)

  /** One printed amount, such as `5 minutes`. */
  datatype Part = Part(amount: nat, name: string)

  /** The units `humanize` splits into, smallest first. The count of days is
      1000, so whole thousands of days are dropped. */
  const Units: seq<Unit> := [Unit(60, "seconds"), Unit(60, "minutes"), Unit(24, "hours"), Unit(1000, "days")]

  predicate Positive(us: seq<Unit>) {
    forall i | 0 <= i < |us| :: us[i].count > 0
  }

  /** The `map` step: while seconds remain, each unit takes the remainder of
      `divmod` by its count and passes the quotient on; once none remain it
      yields `nil`. */
  function Mapped(secs: nat, us: seq<Unit>): (r: seq<Option<Part>>)
    requires Positive(us)
    ensures |r| == |us|
    decreases |us|
  {
    if us == [] then []
    else if secs > 0 then [Some(Part(secs % us[0].count, us[0].name))] + Mapped(secs / us[0].count, us[1..])
    else [None] + Mapped(0, us[1..])
  }

  /** Ruby's `compact`: the values without the `nil`s, in order. */
  function Compact(xs: seq<Option<Part>>): seq<Part> {
    if xs == [] then []
    else match xs[0]
      case None => Compact(xs[1..])
      case Some(p) => [p] + Compact(xs[1..])
  }

  function Reverse(xs: seq<string>): (r: seq<string>)
    ensures |r| == |xs|
  {
    if xs == [] then [] else Reverse(xs[1..]) + [xs[0]]
  }

  function RenderPart(p: Part): string {
    ShowNat(p.amount) + " " + p.name
  }

  /** The amounts, smallest unit first, for the given units. */
  function PartsOver(secs: nat, us: seq<Unit>): seq<Part>
    requires Positive(us)
  {
    Compact(Mapped(secs, us))
  }

  /** `humanize` over the given units: the amounts, largest unit first,
      joined by spaces. */
  function HumanizeOver(secs: nat, us: seq<Unit>): (h: string)
    requires Positive(us)
    ensures h == "" <==> secs == 0 || us == []
  {
    var ps := PartsOver(secs, us);
    var rs := seq(|ps|, i requires 0 <= i < |ps| => RenderPart(ps[i]));
    MixedRadixDigits(secs, us);
    JoinNonEmpty(Reverse(rs), rs);
    JoinWith(Reverse(rs), ' ')
  }

  /** The parts are joined into nothing exactly when there are none, since
      every printed part holds at least its space. */
  lemma JoinNonEmpty(xs: seq<string>, rs: seq<string>)
    requires xs == Reverse(rs)
    requires forall i | 0 <= i < |rs| :: rs[i] != ""
    ensures JoinWith(xs, ' ') == "" <==> rs == []
  {
    if rs != [] {
      ReverseFirst(rs);
    }
  }

  lemma {:induction false} ReverseFirst(xs: seq<string>)
    requires xs != []
    ensures Reverse(xs)[0] == xs[|xs| - 1]
    decreases |xs|
  {
    if |xs| > 1 {
      ReverseFirst(xs[1..]);
    }
  }

  /** `humanize` as written; it prints nothing exactly for no seconds. */
  function Humanize(secs: nat): (h: string)
    ensures h == "" <==> secs == 0
  {
    HumanizeOver(secs, Units)
  }

  /** The units with a count of days no uptime reaches. */
  function WholeDays(secs: nat): (us: seq<Unit>)
    ensures Positive(us)
  {
    Units[..3] + [Unit(secs / 86400 + 1, "days")]
  }

  /** `humanize` with the days never wrapped, which the corrected probe's text uses. */
  function HumanizeWhole(secs: nat): (h: string)
    ensures h == "" <==> secs == 0
  {
    HumanizeOver(secs, WholeDays(secs))
  }

  /** The number of seconds the amounts stand for. */
  function Value(ps: seq<Part>, us: seq<Unit>): int
    requires |ps| <= |us|
  {
    if ps == [] then 0 else ps[0].amount + us[0].count * Value(ps[1..], us[1..])
  }

  /** The product of the counts: the seconds in one of the next unit up. */
  function Prod(us: seq<Unit>): nat {
    if us == [] then 1 else us[0].count * Prod(us[1..])
  }

  /** The quotient left over after the last unit, which no amount shows. */
  function Left(secs: nat, us: seq<Unit>): nat
    requires Positive(us)
    decreases |us|
  {
    if us == [] || secs == 0 then secs else Left(secs / us[0].count, us[1..])
  }

  lemma {:induction false} CompactNones(us: seq<Unit>)
    requires Positive(us)
    ensures Compact(Mapped(0, us)) == []
  {
    if us != [] {
      CompactNones(us[1..]);
    }
  }

  lemma Distribute(c: int, a: int, b: int)
    ensures c * a + c * b == c * (a + b)
  {
  }

  /** With seconds left, a unit takes the remainder and the rest of the
      units split the quotient. */
  lemma PartsStep(secs: nat, us: seq<Unit>)
    requires Positive(us) && us != [] && secs > 0
    ensures PartsOver(secs, us) == [Part(secs % us[0].count, us[0].name)] + PartsOver(secs / us[0].count, us[1..])
  {
    var m := Mapped(secs / us[0].count, us[1..]);
    assert Mapped(secs, us) == [Some(Part(secs % us[0].count, us[0].name))] + m;
    assert ([Some(Part(secs % us[0].count, us[0].name))] + m)[1..] == m;
  }

  /** The amounts are the digits of `secs` in the mixed radix of the units:
      one per unit from the smallest up until no seconds remain, each below
      its unit's count, and the largest non-zero unless something was
      dropped. */
  lemma {:induction false} MixedRadixDigits(secs: nat, us: seq<Unit>)
    requires Positive(us)
    ensures var ps := PartsOver(secs, us);
      && |ps| <= |us|
      && (ps == [] <==> secs == 0 || us == [])
      && (forall i | 0 <= i < |ps| :: ps[i].name == us[i].name && ps[i].amount < us[i].count)
      && (ps != [] && Left(secs, us) == 0 ==> ps[|ps| - 1].amount > 0)
    decreases |us|
  {
    if us == [] {
    } else if secs == 0 {
      CompactNones(us);
    } else {
      var c, q := us[0].count, secs / us[0].count;
      var rest := PartsOver(q, us[1..]);
      MixedRadixDigits(q, us[1..]);
      PartsStep(secs, us);
      var ps := PartsOver(secs, us);
      forall i | 1 <= i < |ps|
        ensures ps[i].name == us[i].name && ps[i].amount < us[i].count
      {
        assert ps[i] == rest[i - 1] && us[i] == us[1..][i - 1];
      }
      if rest == [] && Left(q, us[1..]) == 0 {
        assert q == 0;
      }
    }
  }

  /** Together with the quotient dropped after the last unit, the amounts
      add up to `secs`. */
  lemma {:induction false} MixedRadixValue(secs: nat, us: seq<Unit>)
    requires Positive(us)
    ensures var ps := PartsOver(secs, us);
      |ps| <= |us| && Value(ps, us) + Prod(us) * Left(secs, us) == secs
    decreases |us|
  {
    MixedRadixDigits(secs, us);
    if us == [] {
    } else if secs == 0 {
      CompactNones(us);
    } else {
      var c, q := us[0].count, secs / us[0].count;
      var rest := PartsOver(q, us[1..]);
      MixedRadixValue(q, us[1..]);
      PartsStep(secs, us);
      var ps := PartsOver(secs, us);
      assert ps[1..] == rest;
      RadixStep(secs, c, Value(rest, us[1..]), Prod(us[1..]), Left(q, us[1..]));
    }
  }

  lemma RadixStep(secs: nat, c: nat, v: int, p: int, l: int)
    requires c > 0 && v + p * l == secs / c
    ensures secs % c + c * v + (c * p) * l == secs
  {
    Distribute(c, v, p * l);
    assert c * (p * l) == (c * p) * l;
  }

  lemma DivBelow(x: nat, c: nat, p: nat)
    requires c > 0 && x < c * p
    ensures x / c < p
  {
    if x / c >= p {
      MulAtLeast(c, x / c, p);
    }
  }

  lemma MulAtLeast(c: nat, a: nat, b: nat)
    requires a >= b
    ensures c * a >= c * b
  {
  }

  /** Nothing is dropped from fewer seconds than the units span. */
  lemma {:induction false} LeftBelow(secs: nat, us: seq<Unit>)
    requires Positive(us) && secs < Prod(us)
    ensures Left(secs, us) == 0
    decreases |us|
  {
    if us != [] && secs != 0 {
      DivBelow(secs, us[0].count, Prod(us[1..]));
      LeftBelow(secs / us[0].count, us[1..]);
    }
  }

  /** Zero seconds print as nothing. */
  lemma HumanizeZero()
    ensures Humanize(0) == "" && HumanizeWhole(0) == ""
  {
    CompactNones(Units);
    CompactNones(WholeDays(0));
  }

  /** Below 1000 days `humanize` prints the exact uptime: seconds, minutes
      and hours within their ranges, days below 1000, no leading zero
      amount, adding up to `secs`. */
  lemma HumanizeExact(secs: nat)
    requires 0 < secs < 86400000
    ensures var ps := PartsOver(secs, Units);
      && 1 <= |ps| <= 4
      && (forall i | 0 <= i < |ps| :: ps[i].name == Units[i].name && ps[i].amount < Units[i].count)
      && ps[|ps| - 1].amount > 0
      && Value(ps, Units) == secs
  {
    assert Prod(Units) == 86400000;
    LeftBelow(secs, Units);
    MixedRadixDigits(secs, Units);
    MixedRadixValue(secs, Units);
  }

  /** As written, 1000 days of uptime print as zero of every unit. */
  lemma ThousandDaysAsWritten()
    ensures PartsOver(86400000, Units) == [Part(0, "seconds"), Part(0, "minutes"), Part(0, "hours"), Part(0, "days")]
  {
    assert Mapped(0, []) == [];
    assert Mapped(1000, Units[3..]) == [Some(Part(0, "days"))];
    assert Mapped(24000, Units[2..]) == [Some(Part(0, "hours"))] + Mapped(1000, Units[3..]);
    assert Mapped(1440000, Units[1..]) == [Some(Part(0, "minutes"))] + Mapped(24000, Units[2..]);
    assert Mapped(86400000, Units) == [Some(Part(0, "seconds"))] + Mapped(1440000, Units[1..]);
  }

  /** With the days unwrapped every uptime prints exactly. */
  lemma HumanizeWholeExact(secs: nat)
    requires secs > 0
    ensures var us := WholeDays(secs); var ps := PartsOver(secs, us);
      && 1 <= |ps| <= 4
      && (forall i | 0 <= i < |ps| :: ps[i].name == us[i].name && ps[i].amount < us[i].count)
      && ps[|ps| - 1].amount > 0
      && Value(ps, us) == secs
  {
    var us := WholeDays(secs);
    var d := secs / 86400 + 1;
    assert Prod(us) == 86400 * d by {
      assert us[3..] == [Unit(d, "days")];
      assert Prod(us[3..]) == d;
      assert us[2..] == [Units[2]] + us[3..];
      assert us[1..] == [Units[1]] + us[2..];
      assert Prod(us[2..]) == 24 * d;
      assert Prod(us[1..]) == 60 * (24 * d);
    }
    assert secs < 86400 * d;
    LeftBelow(secs, us);
    MixedRadixDigits(secs, us);
    MixedRadixValue(secs, us);
  }

  // ---------------------------------------------------------------------
  // check_uptime
  // ---------------------------------------------------------------------

  /** The capture of `^([0-9]+)\.` in one line of `/proc/uptime`. */
  function UptimeMatch(line: string): (m: Option<string>)
    ensures m.Some? ==> m.value != [] && AllDigits(m.value)
  {
    var k := DigitRun(line);
    if 0 < k < |line| && line[k] == '.' then Some(line[..k]) else None
  }

  /** The match of the last line: every line overwrites the previous match,
      a line that fails with `nil`. */
  function LastMatch(content: string): Option<string> {
    var ls := EachLine(content);
    if ls == [] then None else UptimeMatch(ls[|ls| - 1])
  }

  const NoMatchText: string := "UNKNOWN: Uptime regex failed to match"

  function UptimeMetrics(seconds: string, threshold: int): seq<Metric> {
    [Metric("uptime", seconds + "s", [ShowInt(threshold), "", "0"])]
  }

  /** The probe's result for the contents of `/proc/uptime`, given the
      printer of the uptime; `threshold` is the uptime in seconds up to
      which the host counts as freshly booted. */
  function UptimeOutcome(threshold: int, content: string, show: nat -> string): Outcome {
    match LastMatch(content)
    case None => Outcome(UNKNOWN, NoMatchText, Some(RenderMetrics(UptimeMetrics("0", threshold))))
    case Some(d) =>
      var n := DigitsValue(d);
      var code := if n <= threshold then WARNING else OK;
      Outcome(code, LadderWord(code) + " - Uptime " + show(n), Some(RenderMetrics(UptimeMetrics(d, threshold))))
  }

  /** check_uptime as written: the uptime is printed by `humanize`, which
      drops whole thousands of days. */
  function CheckUptimeAsWritten(threshold: int, content: string): (r: Outcome)
    ensures r.code == UNKNOWN || r.code == WARNING || r.code == OK
    ensures r.code == UNKNOWN <==> LastMatch(content).None?
  {
    UptimeOutcome(threshold, content, Humanize)
  }

  /** check_uptime with the uptime printed in whole days. */
  function CheckUptime(threshold: int, content: string): (r: Outcome)
    ensures r.code == UNKNOWN || r.code == WARNING || r.code == OK
    ensures r.code == UNKNOWN <==> LastMatch(content).None?
    ensures r.code == CheckUptimeAsWritten(threshold, content).code
    ensures r.perfdata == CheckUptimeAsWritten(threshold, content).perfdata
  {
    UptimeOutcome(threshold, content, HumanizeWhole)
  }

  /** A host up for at most `threshold` seconds warns, a longer-running one
      is OK, and a file without the seconds is UNKNOWN. */
  lemma UptimeBands(threshold: int, content: string)
    ensures var c, m := CheckUptime(threshold, content).code, LastMatch(content);
      && (c == UNKNOWN <==> m.None?)
      && (c == WARNING <==> m.Some? && DigitsValue(m.value) <= threshold)
      && (c == OK <==> m.Some? && DigitsValue(m.value) > threshold)
  {
  }

  /** A file whose last line does not start with the seconds has no match,
      and so is UNKNOWN, whatever the lines before it hold. */
  lemma LastLineDecides(before: seq<string>, last: string)
    requires forall i | 0 <= i < |before| :: '\n' !in before[i]
    requires '\n' !in last && UptimeMatch(last).None?
    ensures LastMatch(JoinWith(before + [last], '\n') + "\n").None?
  {
    var ls := before + [last];
    var content := JoinWith(ls, '\n') + "\n";
    assert forall i | 0 <= i < |ls| :: '\n' !in ls[i];
    EachLineOfOutput(ls);
    assert EachLine(content)[|ls| - 1] == last;
  }

  /** The usual `/proc/uptime` line, the seconds since boot with their
      fraction and then the idle time, is read as those seconds; the
      perfdata keeps the seconds as written. The script prints them with
      `humanize`, the corrected probe in whole days. */
  lemma UptimeOfProcFile(threshold: int, n: nat, rest: string)
    requires '\n' !in rest
    ensures var r := CheckUptimeAsWritten(threshold, ShowNat(n) + "." + rest + "\n");
      && r.code == (if n <= threshold then WARNING else OK)
      && r.text == LadderWord(r.code) + " - Uptime " + Humanize(n)
      && r.perfdata == Some(RenderMetrics(UptimeMetrics(ShowNat(n), threshold)))
    ensures var r := CheckUptime(threshold, ShowNat(n) + "." + rest + "\n");
      r.text == LadderWord(r.code) + " - Uptime " + HumanizeWhole(n)
  {
    LastMatchOfProcFile(n, rest);
  }

  /** The match of such a file is the seconds as printed. */
  lemma LastMatchOfProcFile(n: nat, rest: string)
    requires '\n' !in rest
    ensures LastMatch(ShowNat(n) + "." + rest + "\n") == Some(ShowNat(n))
  {
    var line := ShowNat(n) + "." + rest;
    assert '\n' !in line by {
      assert forall i | 0 <= i < |ShowNat(n)| :: IsDigit(ShowNat(n)[i]);
    }
    EachLineOfOutput([line]);
    assert JoinWith([line], '\n') == line;
    DigitRunOf(ShowNat(n), "." + rest);
    assert line == ShowNat(n) + ("." + rest);
    assert line[..|ShowNat(n)|] == ShowNat(n);
  }

  /** Below 1000 days the script and the corrected probe give the same
      result; the two differ only in the text, and only from 1000 days up. */
  lemma CorrectionBelowThousandDays(threshold: int, content: string)
    requires LastMatch(content).Some? ==> DigitsValue(LastMatch(content).value) < 86400000
    ensures CheckUptime(threshold, content) == CheckUptimeAsWritten(threshold, content)
  {
    match LastMatch(content)
    case None =>
    case Some(d) => HumanizeAgrees(DigitsValue(d));
  }

  /** An uptime of exactly 1000 days: the script prints four zero amounts,
      the corrected probe `1000 days 0 hours 0 minutes 0 seconds`. */
  lemma ThousandDaysProbe(threshold: int, rest: string)
    requires '\n' !in rest && threshold < 86400000
    ensures CheckUptimeAsWritten(threshold, ShowNat(86400000) + "." + rest + "\n").text
         == "OK - Uptime " + JoinWith(["0 days", "0 hours", "0 minutes", "0 seconds"], ' ')
    ensures CheckUptime(threshold, ShowNat(86400000) + "." + rest + "\n").text
         == "OK - Uptime " + JoinWith(["1000 days", "0 hours", "0 minutes", "0 seconds"], ' ')
  {
    LongUptime(threshold, 86400000, rest);
    ThousandDaysText();
    WholeThousandDaysText();
  }

  /** An uptime above the threshold is OK under either printer. */
  lemma LongUptime(threshold: int, n: nat, rest: string)
    requires '\n' !in rest && threshold < n
    ensures CheckUptimeAsWritten(threshold, ShowNat(n) + "." + rest + "\n").text == "OK - Uptime " + Humanize(n)
    ensures CheckUptime(threshold, ShowNat(n) + "." + rest + "\n").text == "OK - Uptime " + HumanizeWhole(n)
  {
    UptimeOfProcFile(threshold, n, rest);
    OkPrefix(Humanize(n));
    OkPrefix(HumanizeWhole(n));
  }

  lemma OkPrefix(h: string)
    ensures LadderWord(OK) + " - Uptime " + h == "OK - Uptime " + h
  {
    assert LadderWord(OK) + " - Uptime " == "OK - Uptime ";
  }

  lemma ThousandDaysText()
    ensures Humanize(86400000) == JoinWith(["0 days", "0 hours", "0 minutes", "0 seconds"], ' ')
  {
    ThousandDaysAsWritten();
    RenderFour([Part(0, "seconds"), Part(0, "minutes"), Part(0, "hours"), Part(0, "days")]);
    ZeroParts();
  }

  lemma WholeThousandDaysText()
    ensures HumanizeWhole(86400000) == JoinWith(["1000 days", "0 hours", "0 minutes", "0 seconds"], ' ')
  {
    ThousandDaysWhole();
    RenderFour([Part(0, "seconds"), Part(0, "minutes"), Part(0, "hours"), Part(1000, "days")]);
    ZeroParts();
    ThousandDaysPart();
  }

  lemma ThousandDaysPart()
    ensures RenderPart(Part(1000, "days")) == "1000 days"
  {
    assert ShowNat(1000) == "1000";
  }

  lemma ZeroParts()
    ensures RenderPart(Part(0, "seconds")) == "0 seconds"
    ensures RenderPart(Part(0, "minutes")) == "0 minutes"
    ensures RenderPart(Part(0, "hours")) == "0 hours"
    ensures RenderPart(Part(0, "days")) == "0 days"
  {
    assert ShowNat(0) == "0";
  }

  /** Four amounts print largest first. */
  lemma RenderFour(ps: seq<Part>)
    requires |ps| == 4
    ensures Reverse(seq(|ps|, i requires 0 <= i < |ps| => RenderPart(ps[i])))
         == [RenderPart(ps[3]), RenderPart(ps[2]), RenderPart(ps[1]), RenderPart(ps[0])]
  {
    ReverseFour(seq(|ps|, i requires 0 <= i < |ps| => RenderPart(ps[i])));
  }

  lemma ReverseFour(xs: seq<string>)
    requires |xs| == 4
    ensures Reverse(xs) == [xs[3], xs[2], xs[1], xs[0]]
  {
    var t1, t2, t3 := xs[1..], xs[2..], xs[3..];
    assert t1[1..] == t2 && t2[1..] == t3 && t3[1..] == [];
    assert Reverse(t3) == [xs[3]];
    assert Reverse(t2) == [xs[3], xs[2]];
    assert Reverse(t1) == [xs[3], xs[2], xs[1]];
  }

  /** With the days unwrapped, 1000 days are shown as such. */
  lemma ThousandDaysWhole()
    ensures PartsOver(86400000, WholeDays(86400000)) == [Part(0, "seconds"), Part(0, "minutes"), Part(0, "hours"), Part(1000, "days")]
  {
    var us := WholeDays(86400000);
    assert us == [Unit(60, "seconds"), Unit(60, "minutes"), Unit(24, "hours"), Unit(1001, "days")];
    assert Mapped(0, []) == [];
    assert Mapped(1000, us[3..]) == [Some(Part(1000, "days"))];
    assert Mapped(24000, us[2..]) == [Some(Part(0, "hours"))] + Mapped(1000, us[3..]);
    assert Mapped(1440000, us[1..]) == [Some(Part(0, "minutes"))] + Mapped(24000, us[2..]);
    assert Mapped(86400000, us) == [Some(Part(0, "seconds"))] + Mapped(1440000, us[1..]);
  }

  /** Below 1000 days the day count makes no difference. */
  lemma HumanizeAgrees(secs: nat)
    requires secs < 86400000
    ensures Humanize(secs) == HumanizeWhole(secs)
  {
    var hs := Units[..3];
    assert Units == hs + [Unit(1000, "days")];
    assert WholeDays(secs) == hs + [Unit(secs / 86400 + 1, "days")];
    HoursProd();
    assert secs < 86400 * (secs / 86400 + 1);
    MappedLastCount(secs, hs, 1000, secs / 86400 + 1, "days");
  }

  lemma HoursProd()
    ensures Prod(Units[..3]) == 86400
  {
    var hs := Units[..3];
    assert hs == [Unit(60, "seconds"), Unit(60, "minutes"), Unit(24, "hours")];
    assert hs[1..] == [Unit(60, "minutes"), Unit(24, "hours")];
    assert hs[1..][1..] == [Unit(24, "hours")];
    assert hs[1..][1..][1..] == [];
    assert Prod(hs[1..][1..]) == 24;
    assert Prod(hs[1..]) == 1440;
  }

  /** The count of the last unit does not matter while the seconds stay
      below what every unit together spans. */
  lemma {:induction false} MappedLastCount(secs: nat, us: seq<Unit>, c1: nat, c2: nat, name: string)
    requires Positive(us) && c1 > 0 && c2 > 0
    requires secs < Prod(us) * c1 && secs < Prod(us) * c2
    ensures Positive(us + [Unit(c1, name)]) && Positive(us + [Unit(c2, name)])
    ensures Mapped(secs, us + [Unit(c1, name)]) == Mapped(secs, us + [Unit(c2, name)])
    decreases |us|
  {
    SnocPositive(us, Unit(c1, name));
    SnocPositive(us, Unit(c2, name));
    if us == [] {
      LastUnit(secs, c1, name);
      LastUnit(secs, c2, name);
    } else {
      var c, p := us[0].count, Prod(us[1..]);
      ProdPositive(us[1..]);
      QuotientBelow(secs, c, p, c1);
      QuotientBelow(secs, c, p, c2);
      var q := if secs > 0 then secs / c else 0;
      MappedLastCount(q, us[1..], c1, c2, name);
      MappedCons(secs, us, Unit(c1, name));
      MappedCons(secs, us, Unit(c2, name));
    }
  }

  /** The first unit of `us + [u]` is split off as for `us`. */
  lemma MappedCons(secs: nat, us: seq<Unit>, u: Unit)
    requires Positive(us) && us != [] && u.count > 0
    ensures Positive(us + [u]) && Positive(us[1..] + [u])
    ensures Mapped(secs, us + [u])
         == if secs > 0 then [Some(Part(secs % us[0].count, us[0].name))] + Mapped(secs / us[0].count, us[1..] + [u])
            else [None] + Mapped(0, us[1..] + [u])
  {
    SnocPositive(us, u);
    SnocPositive(us[1..], u);
    var w := us + [u];
    assert w[0] == us[0] && w[1..] == us[1..] + [u];
  }

  lemma SnocPositive(us: seq<Unit>, u: Unit)
    requires Positive(us) && u.count > 0
    ensures Positive(us + [u])
  {
    assert forall i | 0 <= i < |us| :: (us + [u])[i] == us[i];
  }

  /** A single unit whose count exceeds the seconds takes them whole. */
  lemma LastUnit(secs: nat, c: nat, name: string)
    requires 0 <= secs < c
    ensures Mapped(secs, [Unit(c, name)]) == if secs > 0 then [Some(Part(secs, name))] else [None]
  {
    var w := [Unit(c, name)];
    assert w[0].count == c && w[1..] == [];
    SmallDivMod(secs, c);
  }

  lemma SmallDivMod(a: nat, c: nat)
    requires a < c
    ensures a % c == a && a / c == 0
  {
  }

  /** The quotient after the first unit stays below what the others span. */
  lemma QuotientBelow(secs: nat, c: nat, p: nat, k: nat)
    requires c > 0 && p > 0 && k > 0 && secs < (c * p) * k
    ensures secs / c < p * k
    ensures 0 < p * k
  {
    assert (c * p) * k == c * (p * k);
    DivBelow(secs, c, p * k);
    MulPositive(p, k);
  }

  lemma MulPositive(a: nat, b: nat)
    requires a > 0 && b > 0
    ensures a * b > 0
  {
  }

  lemma {:induction false} ProdPositive(us: seq<Unit>)
    requires Positive(us)
    ensures Prod(us) > 0
    decreases |us|
  {
    if us != [] {
      ProdPositive(us[1..]);
      MulPositive(us[0].count, Prod(us[1..]));
    }
  }
}
