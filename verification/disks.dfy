/** check_disks: reads the filesystem table `df --portability --total`
    prints, asks the relay plugin about every mounted filesystem except
    `/boot` with thresholds chosen per mount point, and reports the total
    row itself. */
module Disks {
  import opened Wrappers
  import opened Lines
  import opened Numbers
  import opened Probe

  /** A configured mount point: its thresholds, and the units of the
      thresholds when they are not percentages. */
  datatype DiskConfig = DiskConfig(warn: string, crit: string, units: Option<string>)

  /** One call of the relay plugin: thresholds, the mount point (`nil`, for
      a blank row, printing empty), and the units. */
  datatype DiskRequest = DiskRequest(warn: string, crit: string, mountpoint: Option<string>, units: string)

  /** The thresholds for mount points without configuration. */
  const DefaultWarn: string := "10%"
  const DefaultCrit: string := "5%"

  /** The mount point of a row: its last column. */
  function MountPoint(row: string): Option<string> {
    FromEnd(Words(row), 1)
  }

  /** The request for a mount point: its configuration when it has one, the
      default thresholds in percent otherwise. */
  function Choose(config: map<string, DiskConfig>, mp: Option<string>): DiskRequest {
    if mp.Some? && mp.value in config then
      var c := config[mp.value];
      DiskRequest(c.warn, c.crit, mp, c.units.GetOr("%"))
    else DiskRequest(DefaultWarn, DefaultCrit, mp, "%")
  }

  /** The requests for one row: none for `/boot`. */
  function RowRequests(config: map<string, DiskConfig>, row: string): seq<DiskRequest> {
    var mp := MountPoint(row);
    if mp == Some("/boot") then [] else [Choose(config, mp)]
  }

  /** The requests for the rows, in order. */
  function Requests(config: map<string, DiskConfig>, rows: seq<string>): (rs: seq<DiskRequest>)
    ensures |rs| <= |rows|
    ensures forall i | 0 <= i < |rs| :: rs[i].mountpoint != Some("/boot")
  {
    if rows == [] then [] else RowRequests(config, rows[0]) + Requests(config, rows[1..])
  }

  /** A column of the total row in megabytes: `to_i` of the kilobytes (0 for
      a missing column) divided by 1024, rounding down. */
  function Megabytes(cols: seq<string>, i: nat): int {
    (if i < |cols| then ToI(cols[i]) else 0) / 1024
  }

  /** The total row's report: always OK. */
  function TotalOutcome(total: string): Outcome {
    var cols := Words(total);
    var used, size, free := Megabytes(cols, 2), Megabytes(cols, 1), Megabytes(cols, 3);
    var perc := if 4 < |cols| then cols[4] else "";
    Outcome(OK,
            "Total disk space used: " + ShowInt(used) + "MB out of total: " + ShowInt(size)
              + "MB equals free: " + ShowInt(free) + "MB or " + perc,
            Some(RenderMetrics(TotalMetrics(used, size, free, perc))))
  }

  function TotalMetrics(used: int, size: int, free: int, perc: string): seq<Metric> {
    [Metric("total_used", ShowInt(used) + "MB", []), Metric("total_size", ShowInt(size) + "MB", []),
     Metric("total_free_M", ShowInt(free) + "MB", []), Metric("total_free_perc", perc, [])]
  }

  /** check_disks: the requests for the filesystem rows between the header
      and the total row, and the total row's report. Without the header, or
      without a row after it, the script stops on a method of `nil`. */
  function CheckDisks(config: map<string, DiskConfig>, df: string): (r: Result<(seq<DiskRequest>, Outcome), Crash>)
    ensures r.Failure? <==> |SplitLines(df)| < 2
  {
    var ls := SplitLines(df);
    if |ls| < 2 then Failure(NoMethodError)
    else Success((Requests(config, ls[1..|ls| - 1]), TotalOutcome(ls[|ls| - 1])))
  }

  // ---------------------------------------------------------------------
  // Properties
  // ---------------------------------------------------------------------

  /** The requests of consecutive rows are the requests of each part. */
  lemma {:induction false} RequestsAppend(config: map<string, DiskConfig>, a: seq<string>, b: seq<string>)
    ensures Requests(config, a + b) == Requests(config, a) + Requests(config, b)
    decreases |a|
  {
    if a == [] {
      assert a + b == b;
    } else {
      assert (a + b)[1..] == a[1..] + b;
      RequestsAppend(config, a[1..], b);
    }
  }

  /** Every request is for a mount point other than `/boot`, and carries the
      mount point's configured thresholds and units when it has any and
      `10%`, `5%` in percent otherwise. */
  lemma {:induction false} RequestsChosen(config: map<string, DiskConfig>, rows: seq<string>)
    ensures forall r | r in Requests(config, rows) ::
      && r.mountpoint != Some("/boot")
      && (if r.mountpoint.Some? && r.mountpoint.value in config
          then var c := config[r.mountpoint.value]; r.warn == c.warn && r.crit == c.crit && r.units == c.units.GetOr("%")
          else r.warn == DefaultWarn && r.crit == DefaultCrit && r.units == "%")
    decreases |rows|
  {
    if rows != [] {
      RequestsChosen(config, rows[1..]);
    }
  }

  /** Every row other than a `/boot` row yields exactly one request, in the
      order of the rows. */
  lemma {:induction false} RequestsCount(config: map<string, DiskConfig>, rows: seq<string>)
    ensures |Requests(config, rows)| == |rows| - BootRows(rows)
    ensures forall i | 0 <= i < |rows| && MountPoint(rows[i]) != Some("/boot") ::
      Choose(config, MountPoint(rows[i])) in Requests(config, rows)
    decreases |rows|
  {
    if rows != [] {
      RequestsCount(config, rows[1..]);
      forall i | 1 <= i < |rows| && MountPoint(rows[i]) != Some("/boot")
        ensures Choose(config, MountPoint(rows[i])) in Requests(config, rows)
      {
        assert rows[i] == rows[1..][i - 1];
      }
    }
  }

  /** The number of `/boot` rows. */
  function BootRows(rows: seq<string>): (n: nat)
    ensures n <= |rows|
  {
    if rows == [] then 0 else (if MountPoint(rows[0]) == Some("/boot") then 1 else 0) + BootRows(rows[1..])
  }

  /** A row of plain columns whose last column names a mount point asks
      about that mount point. */
  lemma RowOfColumns(config: map<string, DiskConfig>, cols: seq<string>)
    requires cols != []
    requires forall i | 0 <= i < |cols| :: cols[i] != "" && NoSpace(cols[i])
    ensures MountPoint(JoinWith(cols, ' ')) == Some(cols[|cols| - 1])
    ensures RowRequests(config, JoinWith(cols, ' '))
         == if cols[|cols| - 1] == "/boot" then [] else [Choose(config, Some(cols[|cols| - 1]))]
  {
    MountPointOfColumns(cols);
  }

  /** The mount point of a row of plain columns is its last column. */
  lemma MountPointOfColumns(cols: seq<string>)
    requires cols != []
    requires forall i | 0 <= i < |cols| :: cols[i] != "" && NoSpace(cols[i])
    ensures MountPoint(JoinWith(cols, ' ')) == Some(cols[|cols| - 1])
  {
    WordsOfJoin(cols);
  }

  /** The total row of `df --total`, `total <size> <used> <free> <percent> -`
      in kilobytes, is reported in whole megabytes with the percentage as
      printed, under the four `total_` labels. */
  lemma TotalOfRow(size: nat, used: nat, free: nat, perc: string, rest: seq<string>)
    requires perc != "" && NoSpace(perc)
    requires forall i | 0 <= i < |rest| :: rest[i] != "" && NoSpace(rest[i])
    ensures var cols := ["total", ShowNat(size), ShowNat(used), ShowNat(free), perc] + rest;
      var r := TotalOutcome(JoinWith(cols, ' '));
      && r.code == OK
      && r.perfdata == Some(RenderMetrics(TotalMetrics(used / 1024, size / 1024, free / 1024, perc)))
  {
    var cols := ["total", ShowNat(size), ShowNat(used), ShowNat(free), perc] + rest;
    assert forall i | 0 <= i < |cols| :: cols[i] != "" && NoSpace(cols[i]) by {
      assert NoSpace("total");
    }
    WordsOfJoin(cols);
    ToIShowInt(size);
    ToIShowInt(used);
    ToIShowInt(free);
  }

  /** The total report's perfdata carries the four labels in order. */
  lemma TotalLabels(used: int, size: int, free: int, perc: string)
    requires NoSpace(perc)
    ensures PerfLabels(RenderMetrics(TotalMetrics(used, size, free, perc)))
         == ["total_used", "total_size", "total_free_M", "total_free_perc"]
  {
    TotalMetricsPlain(used, size, free, perc);
    LabelsOfNamed(TotalMetrics(used, size, free, perc), ["total_used", "total_size", "total_free_M", "total_free_perc"]);
  }

  /** The four total items hold no white space and have plain names. */
  lemma TotalMetricsPlain(used: int, size: int, free: int, perc: string)
    requires NoSpace(perc)
    ensures var ms := TotalMetrics(used, size, free, perc);
      forall i | 0 <= i < |ms| :: PlainMetric(ms[i])
  {
    TotalNamesPlain();
    MegabytesMetricPlain("total_used", used);
    MegabytesMetricPlain("total_size", size);
    MegabytesMetricPlain("total_free_M", free);
  }

  /** The four total labels are plain names. */
  lemma TotalNamesPlain()
    ensures PlainName("total_used") && PlainName("total_size")
    ensures PlainName("total_free_M") && PlainName("total_free_perc")
  {
  }

  /** An item of whole megabytes under a plain name is plain. */
  lemma MegabytesMetricPlain(name: string, n: int)
    requires PlainName(name)
    ensures PlainMetric(Metric(name, ShowInt(n) + "MB", []))
  {
    ShowIntHasNoSpace(n);
    NoSpaceAppend(ShowInt(n), "MB");
  }
}
