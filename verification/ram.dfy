/** check_ram: reads /proc/meminfo, counts MemFree, Buffers, Cached and
    SReclaimable as free, converts kB to MB, and classifies the rounded
    percentage of free memory with the inverted ladder. */
module Ram {
  import opened Wrappers
  import opened Lines
  import opened Numbers
  import opened Scan
  import opened Probe

  /** The meminfo keys the probe reads. */
  datatype Key = MemTotal | MemFree | Buffers | Cached | SReclaimable

  /** The key with its colon, as meminfo writes it at the start of a line. */
  function Label(k: Key): string {
    match k
    case MemTotal => "MemTotal:"
    case MemFree => "MemFree:"
    case Buffers => "Buffers:"
    case Cached => "Cached:"
    case SReclaimable => "SReclaimable:"
  }

  function KeyOf(name: string): (k: Option<Key>)
    ensures k.Some? ==> Label(k.value) == name
  {
    if name == "MemTotal:" then Some(MemTotal)
    else if name == "MemFree:" then Some(MemFree)
    else if name == "Buffers:" then Some(Buffers)
    else if name == "Cached:" then Some(Cached)
    else if name == "SReclaimable:" then Some(SReclaimable)
    else None
  }

  /** One recognised meminfo line: its key and its amount in kB. */
  datatype Entry = Entry(key: Key, kb: nat)

  /** A meminfo line as the two `when` patterns describe it: the label at
      the start, white space, digits, ` kB` and the end of the line. */
  function RenderEntry(k: Key, gap: string, digits: string): string {
    Label(k) + gap + digits + " kB"
  }

  /** The two `when` patterns of the probe, read from the end of the line. */
  function ParseEntry(line: string): (e: Option<Entry>)
    ensures e.Some? ==> EndsWith(line, " kB")
    ensures e.Some? ==> |Label(e.value.key)| < |line| && line[..|Label(e.value.key)|] == Label(e.value.key)
  {
    if |line| < 3 || line[|line| - 3..] != " kB" then None
    else
      var body := line[..|line| - 3];
      var d := DigitSuffixStart(body);
      var rest := body[..d];
      var sp := SpaceSuffixStart(rest);
      if d == |body| || sp == |rest| then None
      else match KeyOf(rest[..sp])
        case None => None
        case Some(k) => Some(Entry(k, DigitsValue(body[d..])))
  }

  /** The totals in kB, as the probe's local variables hold them. */
  datatype MemInfo = MemInfo(total: nat, free: nat, buffers: nat, cached: nat, slabr: nat)

  const Zero: MemInfo := MemInfo(0, 0, 0, 0, 0)

  /** One iteration of the loop over the file: the last MemTotal line sets
      the total, every line of the other four keys adds to free, and
      Buffers, Cached and SReclaimable also remember their own last value. */
  function Step(m: MemInfo, line: string): MemInfo {
    match ParseEntry(line)
    case None => m
    case Some(e) => Apply(m, e)
  }

  function Apply(m: MemInfo, e: Entry): MemInfo {
    match e
    case Entry(MemTotal, v) => m.(total := v)
    case Entry(k, v) =>
      var m := m.(free := m.free + v);
      if k == Buffers then m.(buffers := v)
      else if k == Cached then m.(cached := v)
      else if k == SReclaimable then m.(slabr := v)
      else m
  }

  function Read(lines: seq<string>): MemInfo
    decreases |lines|
  {
    if lines == [] then Zero else Step(Read(lines[..|lines| - 1]), lines[|lines| - 1])
  }

  // ---------------------------------------------------------------------
  // The percentage
  // ---------------------------------------------------------------------

  /** `(free / (total / 100.0)).round()`, computed exactly. */
  function PercentFree(freeMb: nat, totalMb: nat): (r: Result<int, Crash>)
    ensures r.Failure? <==> totalMb == 0
  {
    if totalMb == 0 then Failure(FloatDomainError)
    else Success(RoundHalfAway((100 * freeMb) as real / totalMb as real))
  }

  // ---------------------------------------------------------------------
  // The largest process
  // ---------------------------------------------------------------------

  /** The text about the first process `ps aux --sort -rss` lists: its RSS
      (column 6) in MB, its %MEM (column 4) and its command line (columns
      11 on). A listing without a second line, or a process line with
      fewer than ten columns, leaves a `nil` that a method is called on. */
  function TopProcess(ps: string): (r: Result<string, Crash>)
    ensures r.Failure? <==> |SplitLines(ps)| < 2 || |Words(SplitLines(ps)[1])| < 10
  {
    var ls := SplitLines(ps);
    if |ls| < 2 then Failure(NoMethodError)
    else
      var cols := Words(ls[1]);
      if |cols| < 10 then Failure(NoMethodError)
      else Success(" - top mem proc: " + ShowInt(ToI(cols[5]) / 1024) + "MB " + cols[3] + "% ram for "
                   + JoinWith(cols[10..], ' '))
  }

  // ---------------------------------------------------------------------
  // The probe
  // ---------------------------------------------------------------------

  /** The figures the probe reports, in MB and percent. */
  datatype Figures = Figures(freeMb: nat, totalMb: nat, percent: int, buffersMb: nat, cachedMb: nat, slabrMb: nat)

  function FiguresOf(m: MemInfo): Result<Figures, Crash> {
    var freeMb, totalMb := m.free / 1024, m.total / 1024;
    match PercentFree(freeMb, totalMb)
    case Failure(e) => Failure(e)
    case Success(p) => Success(Figures(freeMb, totalMb, p, m.buffers / 1024, m.cached / 1024, m.slabr / 1024))
  }

  function RamCode(f: Figures, warn: int, crit: int): int {
    InvertedLadder(f.percent, warn, crit)
  }

  function RamText(code: int, f: Figures, top: string): string {
    LadderWord(code) + " - " + ShowInt(f.percent) + "% RAM free: " + ShowInt(f.freeMb)
    + "MB total: " + ShowInt(f.totalMb) + "MB" + top
  }

  /** The free thresholds in MB: `warn` and `crit` percent of the total,
      rounded down. */
  function ThresholdMb(pct: int, totalMb: nat): int {
    (pct * totalMb) / 100
  }

  function Megabytes(name: string, mb: int, fields: seq<string>): Metric {
    Metric(name, ShowInt(mb) + "MB", fields)
  }

  function RamMetrics(f: Figures, warn: int, crit: int): seq<Metric> {
    [ Metric("ram_free_percent", ShowInt(f.percent) + "%", [ShowInt(warn), ShowInt(crit), "0", "100"]),
      Megabytes("ram_free", f.freeMb,
        [ShowInt(ThresholdMb(warn, f.totalMb)), ShowInt(ThresholdMb(crit, f.totalMb)), "0", ShowInt(f.totalMb)]),
      Megabytes("ram_buffers", f.buffersMb, []),
      Megabytes("ram_cached", f.cachedMb, []),
      Megabytes("ram_slabr", f.slabrMb, []) ]
  }

  /** check_ram on the text of /proc/meminfo; `ps` is the output of the
      process listing, which the probe runs only for WARNING and CRITICAL. */
  function CheckRam(warn: int, crit: int, meminfo: string, ps: string): (r: Result<Outcome, Crash>)
    ensures Read(EachLine(meminfo)).total < 1024 ==> r == Failure(FloatDomainError)
    ensures r.Success? ==> OK <= r.value.code <= CRITICAL && r.value.perfdata.Some?
  {
    match FiguresOf(Read(EachLine(meminfo)))
    case Failure(e) => Failure(e)
    case Success(f) =>
      var code := RamCode(f, warn, crit);
      var top := if code == WARNING || code == CRITICAL then TopProcess(ps) else Success("");
      match top
      case Failure(e) => Failure(e)
      case Success(t) => Success(Outcome(code, RamText(code, f, t), Some(RenderMetrics(RamMetrics(f, warn, crit)))))
  }

  // ---------------------------------------------------------------------
  // Properties
  // ---------------------------------------------------------------------

  /** A recognised line is in meminfo's format, and its amount is the
      number its digits spell. */
  lemma ParseEntrySound(line: string)
    requires ParseEntry(line).Some?
    ensures exists gap, digits ::
      && gap != [] && AllSpace(gap) && digits != [] && AllDigits(digits)
      && line == RenderEntry(ParseEntry(line).value.key, gap, digits)
      && ParseEntry(line).value.kb == DigitsValue(digits)
  {
    var body := line[..|line| - 3];
    var d := DigitSuffixStart(body);
    var rest := body[..d];
    var sp := SpaceSuffixStart(rest);
    var gap, digits := rest[sp..], body[d..];
    assert body == rest[..sp] + gap + digits;
    assert line == body + " kB";
    assert line == RenderEntry(ParseEntry(line).value.key, gap, digits);
  }

  /** A line in meminfo's format is recognised with its key and amount. */
  lemma ParseRenderedEntry(k: Key, gap: string, digits: string)
    requires gap != [] && AllSpace(gap) && digits != [] && AllDigits(digits)
    ensures ParseEntry(RenderEntry(k, gap, digits)) == Some(Entry(k, DigitsValue(digits)))
  {
    var line := RenderEntry(k, gap, digits);
    var body := Label(k) + gap + digits;
    assert line[..|line| - 3] == body;
    assert line[|line| - 3..] == " kB";
    LabelEndsInColon(k);
    DigitSuffixStartOf(Label(k) + gap, digits);
    assert body[..|Label(k) + gap|] == Label(k) + gap;
    SpaceSuffixStartOf(Label(k), gap);
    assert (Label(k) + gap)[..|Label(k)|] == Label(k);
    assert body[|Label(k) + gap|..] == digits;
    assert (Label(k) + gap)[|Label(k)|..] == gap;
  }

  lemma LabelEndsInColon(k: Key)
    ensures |Label(k)| >= 1 && Label(k)[|Label(k)| - 1] == ':'
    ensures KeyOf(Label(k)) == Some(k)
    ensures EndsOutsideNumber(Label(k) + "")
  {
  }

  /** A file with one line per key, in meminfo's order, is read as the
      probe intends: the total, the sum of the other four, and the three
      remembered values. */
  lemma ReadFive(l0: string, l1: string, l2: string, l3: string, l4: string, t: nat, f: nat, b: nat, c: nat, r: nat)
    requires ParseEntry(l0) == Some(Entry(MemTotal, t)) && ParseEntry(l1) == Some(Entry(MemFree, f))
    requires ParseEntry(l2) == Some(Entry(Buffers, b)) && ParseEntry(l3) == Some(Entry(Cached, c))
    requires ParseEntry(l4) == Some(Entry(SReclaimable, r))
    ensures Read([l0, l1, l2, l3, l4]) == MemInfo(t, f + b + c + r, b, c, r)
  {
    assert [l0][..0] == [];
    assert Read([l0]) == MemInfo(t, 0, 0, 0, 0);
    assert [l0, l1][..1] == [l0];
    assert Read([l0, l1]) == MemInfo(t, f, 0, 0, 0);
    assert [l0, l1, l2][..2] == [l0, l1];
    assert Read([l0, l1, l2]) == MemInfo(t, f + b, b, 0, 0);
    assert [l0, l1, l2, l3][..3] == [l0, l1, l2];
    assert Read([l0, l1, l2, l3]) == MemInfo(t, f + b + c, b, c, 0);
    assert [l0, l1, l2, l3, l4][..4] == [l0, l1, l2, l3];
  }

  /** Free memory is additive over the file. */
  lemma {:induction false} ReadAppendFree(a: seq<string>, b: seq<string>)
    ensures Read(a + b).free == Read(a).free + Read(b).free
    decreases |b|
  {
    if b == [] {
      assert a + b == a;
    } else {
      var b', line := b[..|b| - 1], b[|b| - 1];
      assert (a + b)[..|a + b| - 1] == a + b';
      assert (a + b)[|a + b| - 1] == line;
      ReadAppendFree(a, b');
      StepFree(Read(a + b'), line);
      StepFree(Read(b'), line);
    }
  }

  /** What a line adds to free does not depend on what came before it. */
  lemma StepFree(m: MemInfo, line: string)
    ensures Step(m, line).free == m.free + Step(Zero, line).free
  {
  }

  /** Lines without a MemTotal entry leave the total alone. */
  lemma {:induction false} ReadAppendTotal(a: seq<string>, b: seq<string>)
    requires forall i | 0 <= i < |b| :: ParseEntry(b[i]).None? || ParseEntry(b[i]).value.key != MemTotal
    ensures Read(a + b).total == Read(a).total
    decreases |b|
  {
    if b == [] {
      assert a + b == a;
    } else {
      var b', line := b[..|b| - 1], b[|b| - 1];
      assert (a + b)[..|a + b| - 1] == a + b';
      assert (a + b)[|a + b| - 1] == line;
      assert forall i | 0 <= i < |b'| :: b'[i] == b[i];
      ReadAppendTotal(a, b');
    }
  }

  /** The rounded percentage is the integer nearest to 100·free/total,
      halves rounded up: in integer terms, (200·free + total) div (2·total). */
  lemma PercentFreeNearest(freeMb: nat, totalMb: nat)
    requires totalMb >= 1
    ensures var p := PercentFree(freeMb, totalMb).value;
      && 2 * p * totalMb - totalMb <= 200 * freeMb < 2 * p * totalMb + totalMb
      && p == (200 * freeMb + totalMb) / (2 * totalMb)
  {
    var x := (100 * freeMb) as real / totalMb as real;
    var p := RoundHalfAway(x);
    assert x >= 0.0;
    assert p as real - 0.5 <= x < p as real + 0.5;
    NearestScaled(p, x, 100 * freeMb, totalMb);
    var t := totalMb;
    DivBetween(200 * freeMb + t, 2 * t, p);
  }

  lemma NearestScaled(p: int, x: real, n: nat, t: nat)
    requires t >= 1 && x == n as real / t as real
    requires p as real - 0.5 <= x < p as real + 0.5
    ensures 2 * p * t - t <= 2 * n < 2 * p * t + t
  {
    DivAbove(n as real, t as real, p as real - 0.5);
    DivBelow(n as real, t as real, p as real + 0.5);
    HalfAround(p, t);
  }

  /** A lower bound on a quotient, multiplied out. */
  lemma DivAbove(n: real, t: real, lo: real)
    requires t > 0.0 && lo <= n / t
    ensures lo * t <= n
  {
    MulLe(lo, n / t, t);
    DivTimes(n, t);
  }

  /** An upper bound on a quotient, multiplied out. */
  lemma DivBelow(n: real, t: real, hi: real)
    requires t > 0.0 && n / t < hi
    ensures n < hi * t
  {
    MulLt(n / t, hi, t);
    DivTimes(n, t);
  }

  /** `(p ± 1/2)·t` as half of an integer. */
  lemma HalfAround(p: int, t: int)
    ensures 2.0 * ((p as real - 0.5) * t as real) == (2 * p * t - t) as real
    ensures 2.0 * ((p as real + 0.5) * t as real) == (2 * p * t + t) as real
  {
    CastMul(2 * p, t);
    Distribute(p as real, 0.5, t as real);
    assert (2 * p) as real == 2.0 * p as real;
  }

  lemma DivTimes(a: real, b: real)
    requires b != 0.0
    ensures (a / b) * b == a
  {
  }

  lemma Distribute(a: real, b: real, c: real)
    ensures (a - b) * c == a * c - b * c
    ensures (a + b) * c == a * c + b * c
  {
  }

  lemma CastMul(a: int, b: int)
    ensures (a * b) as real == a as real * b as real
  {
  }

  lemma MulLe(a: real, b: real, c: real)
    requires a <= b && c > 0.0
    ensures a * c <= b * c
  {
  }

  lemma MulLt(a: real, b: real, c: real)
    requires a < b && c > 0.0
    ensures a * c < b * c
  {
  }

  lemma DivBetween(a: int, b: int, q: int)
    requires b >= 1 && q * b <= a < q * b + b
    ensures a / b == q
  {
    var d, r := a / b, a % b;
    assert a == d * b + r && 0 <= r < b;
    if d > q {
      MulMono(q + 1, d, b);
    } else if d < q {
      MulMono(d + 1, q, b);
    }
  }

  lemma MulMono(x: int, y: int, b: int)
    requires x <= y && b >= 0
    ensures x * b <= y * b
  {
  }

  /** The code is the inverted ladder on the rounded percentage, so less
      free memory never gives a better code. */
  lemma RamCodeBands(f: Figures, warn: int, crit: int)
    ensures var c := RamCode(f, warn, crit);
      && (c == CRITICAL <==> f.percent <= crit)
      && (c == WARNING <==> crit < f.percent <= warn)
      && (c == OK <==> f.percent > warn && f.percent > crit)
  {
    InvertedLadderBands(f.percent, warn, crit);
  }

  /** The probe fails exactly when the total is below 1 MB, or when it is
      WARNING or CRITICAL and the process listing lacks the line or the
      columns it reads. */
  lemma CheckRamFailure(warn: int, crit: int, meminfo: string, ps: string)
    ensures var m := Read(EachLine(meminfo));
      var r := CheckRam(warn, crit, meminfo, ps);
      && (m.total < 1024 ==> r == Failure(FloatDomainError))
      && (m.total >= 1024 ==>
            var c := RamCode(FiguresOf(m).value, warn, crit);
            (r.Failure? <==> (c == WARNING || c == CRITICAL) && TopProcess(ps).Failure?))
  {
  }

  /** The process text is appended exactly when the code is WARNING or
      CRITICAL; an OK result never depends on the listing. */
  lemma OkIgnoresListing(warn: int, crit: int, meminfo: string, ps1: string, ps2: string)
    requires FiguresOf(Read(EachLine(meminfo))).Success?
    requires RamCode(FiguresOf(Read(EachLine(meminfo))).value, warn, crit) == OK
    ensures CheckRam(warn, crit, meminfo, ps1) == CheckRam(warn, crit, meminfo, ps2)
    ensures CheckRam(warn, crit, meminfo, ps1).Success?
  {
  }

  /** The free thresholds in MB are `warn` and `crit` percent of the
      total, rounded down. */
  lemma ThresholdMbRoundsDown(pct: int, totalMb: nat)
    ensures 100 * ThresholdMb(pct, totalMb) <= pct * totalMb < 100 * ThresholdMb(pct, totalMb) + 100
  {
  }

  lemma RamNamesPlain()
    ensures PlainName("ram_free_percent") && PlainName("ram_free") && PlainName("ram_buffers")
    ensures PlainName("ram_cached") && PlainName("ram_slabr")
  {
  }

  lemma MegabytesPlain(name: string, mb: int, fields: seq<string>)
    requires PlainName(name) && forall j | 0 <= j < |fields| :: NoSpace(fields[j])
    ensures PlainMetric(Megabytes(name, mb, fields))
  {
    ShowIntHasNoSpace(mb);
    NoSpaceAppend(ShowInt(mb), "MB");
  }

  lemma PercentItemPlain(name: string, pct: int, warn: int, crit: int)
    requires PlainName(name)
    ensures PlainMetric(Metric(name, ShowInt(pct) + "%", [ShowInt(warn), ShowInt(crit), "0", "100"]))
  {
    ShowIntHasNoSpace(warn);
    ShowIntHasNoSpace(crit);
    ShowIntHasNoSpace(pct);
    NoSpaceAppend(ShowInt(pct), "%");
  }

  lemma FreeItemPlain(name: string, f: Figures, warn: int, crit: int)
    requires PlainName(name)
    ensures PlainMetric(Megabytes(name, f.freeMb,
      [ShowInt(ThresholdMb(warn, f.totalMb)), ShowInt(ThresholdMb(crit, f.totalMb)), "0", ShowInt(f.totalMb)]))
  {
    ShowIntHasNoSpace(ThresholdMb(warn, f.totalMb));
    ShowIntHasNoSpace(ThresholdMb(crit, f.totalMb));
    ShowIntHasNoSpace(f.totalMb);
    MegabytesPlain(name, f.freeMb,
      [ShowInt(ThresholdMb(warn, f.totalMb)), ShowInt(ThresholdMb(crit, f.totalMb)), "0", ShowInt(f.totalMb)]);
  }

  lemma LabelsOfFive(m0: Metric, m1: Metric, m2: Metric, m3: Metric, m4: Metric)
    requires PlainMetric(m0) && PlainMetric(m1) && PlainMetric(m2) && PlainMetric(m3) && PlainMetric(m4)
    ensures PerfLabels(RenderMetrics([m0, m1, m2, m3, m4])) == [m0.name, m1.name, m2.name, m3.name, m4.name]
  {
    LabelsOfNamed([m0, m1, m2, m3, m4], [m0.name, m1.name, m2.name, m3.name, m4.name]);
  }

  /** The perfdata holds five items, labelled in this order. */
  lemma RamLabels(f: Figures, warn: int, crit: int)
    ensures PerfLabels(RenderMetrics(RamMetrics(f, warn, crit)))
         == ["ram_free_percent", "ram_free", "ram_buffers", "ram_cached", "ram_slabr"]
  {
    var ms := RamMetrics(f, warn, crit);
    RamNamesPlain();
    PercentItemPlain("ram_free_percent", f.percent, warn, crit);
    FreeItemPlain("ram_free", f, warn, crit);
    MegabytesPlain("ram_buffers", f.buffersMb, []);
    MegabytesPlain("ram_cached", f.cachedMb, []);
    MegabytesPlain("ram_slabr", f.slabrMb, []);
    LabelsOfFive(ms[0], ms[1], ms[2], ms[3], ms[4]);
    assert ms == [ms[0], ms[1], ms[2], ms[3], ms[4]];
  }

  /** 2,000,000 kB total with 200,000 kB free is 1953 MB with 195 MB free,
      10 percent, and WARNING with the default thresholds 10 and 5. */
  lemma DefaultsExample()
    ensures 2000000 / 1024 == 1953 && 200000 / 1024 == 195
    ensures PercentFree(195, 1953) == Success(10)
    ensures InvertedLadder(10, 10, 5) == WARNING
  {
    PercentFreeNearest(195, 1953);
  }
}
