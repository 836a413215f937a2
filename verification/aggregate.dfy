/** The end of the script: every probe result is folded, in the order the
    results array holds them, into one status line, one perfdata string, a
    multi-line body of the OK details, and the process exit code. */
module Aggregate {
  import opened Wrappers
  import opened Lines
  import opened Probe

  /** The summary printed when no result is WARNING, CRITICAL or UNKNOWN. */
  const Sentinel: string := "OK - everything looks okay - v3.41"

  /** The `output` hash while the results are folded in. */
  datatype Totals = Totals(
    code: int,
    critText: string,
    warnText: string,
    unknownText: string,
    multiline: string,
    perfdata: string)

  const Initial: Totals := Totals(0, "", "", "", "", "")

  /** Folds one result into the totals. */
  function Step(t: Totals, r: Outcome): (u: Totals)
    ensures u.code == t.code || u.code == r.code
    ensures u.code >= t.code && (1 <= r.code <= 3 ==> u.code >= r.code)
    ensures t.critText <= u.critText && t.warnText <= u.warnText && t.unknownText <= u.unknownText
    ensures t.multiline <= u.multiline && t.perfdata <= u.perfdata
  {
    var t := if r.perfdata == Some("") then t else t.(perfdata := t.perfdata + r.perfdata.GetOr("") + " ");
    if r.code >= 1 then
      if r.code == 3 then
        t.(code := if 3 > t.code then 3 else t.code, unknownText := t.unknownText + r.text + " ")
      else if r.code == 2 then
        t.(code := if 2 > t.code then 2 else t.code, critText := t.critText + r.text + " ")
      else if r.code == 1 then
        t.(code := if 1 > t.code then 1 else t.code, warnText := t.warnText + r.text + " ")
      else t
    else t.(multiline := t.multiline + r.text + "</br>\n")
  }

  /** The totals after folding in every result, first to last. */
  function Fold(rs: seq<Outcome>): (t: Totals)
    ensures 0 <= t.code <= 3
    decreases |rs|
  {
    if rs == [] then Initial else Step(Fold(rs[..|rs| - 1]), rs[|rs| - 1])
  }

  /** What the script prints (before `puts` adds its line feed) and the
      status it exits with. */
  datatype Report = Report(exitCode: int, line: string)

  function Summary(t: Totals): string {
    var warn := if t.critText == "" && t.warnText == "" && t.unknownText == "" then Sentinel else t.warnText;
    t.critText + warn + t.unknownText
  }

  function Aggregate(rs: seq<Outcome>): (r: Report)
    ensures 0 <= r.exitCode <= 3
    ensures |Summary(Fold(rs))| < |r.line| && r.line[..|Summary(Fold(rs))|] == Summary(Fold(rs))
  {
    var t := Fold(rs);
    Report(t.code, Summary(t) + "|" + t.perfdata + "\n" + Chomp(t.multiline))
  }

  /** Ruby's `puts`: a line feed is added unless the text already ends in one. */
  function Puts(s: string): string {
    if |s| > 0 && s[|s| - 1] == '\n' then s else s + "\n"
  }

  /** Everything the script writes to standard output at the end. */
  function Stdout(rs: seq<Outcome>): string {
    Puts(Aggregate(rs).line)
  }

  // ---------------------------------------------------------------------
  // Reference definitions, one output part at a time
  // ---------------------------------------------------------------------

  /** The exit code as a maximum: 0 or a code some result has, in 1..3, and
      no result with a code in 1..3 above it. */
  ghost predicate IsMaxCode(rs: seq<Outcome>, c: int) {
    && (c == 0 || (1 <= c <= 3 && exists i | 0 <= i < |rs| :: rs[i].code == c))
    && forall i | 0 <= i < |rs| && 1 <= rs[i].code <= 3 :: rs[i].code <= c
  }

  /** The texts of the results with code `c`, each followed by a space. */
  function Bucket(rs: seq<Outcome>, c: int): string
    decreases |rs|
  {
    if rs == [] then ""
    else
      var r := rs[|rs| - 1];
      Bucket(rs[..|rs| - 1], c) + (if r.code == c then r.text + " " else "")
  }

  /** The texts of the results with a code below 1, each ended by `</br>` and a line feed. */
  function Body(rs: seq<Outcome>): string
    decreases |rs|
  {
    if rs == [] then ""
    else
      var r := rs[|rs| - 1];
      Body(rs[..|rs| - 1]) + (if r.code < 1 then r.text + "</br>\n" else "")
  }

  /** Every perfdata that is not exactly the empty string, each followed by a space. */
  function Perf(rs: seq<Outcome>): string
    decreases |rs|
  {
    if rs == [] then ""
    else
      var r := rs[|rs| - 1];
      Perf(rs[..|rs| - 1]) + (if r.perfdata != Some("") then r.perfdata.GetOr("") + " " else "")
  }

  // ---------------------------------------------------------------------
  // Properties of the fold
  // ---------------------------------------------------------------------

  /** The single pass routes each result exactly as the per-part
      definitions do, and its code is the maximum. */
  lemma FoldIsBucketed(rs: seq<Outcome>)
    ensures Fold(rs).critText == Bucket(rs, 2)
    ensures Fold(rs).warnText == Bucket(rs, 1)
    ensures Fold(rs).unknownText == Bucket(rs, 3)
    ensures Fold(rs).multiline == Body(rs)
    ensures Fold(rs).perfdata == Perf(rs)
    ensures IsMaxCode(rs, Fold(rs).code)
  {
    FoldTexts(rs);
    FoldBody(rs);
    FoldPerf(rs);
    FoldCode(rs);
  }

  lemma {:induction false} FoldTexts(rs: seq<Outcome>)
    ensures Fold(rs).critText == Bucket(rs, 2)
    ensures Fold(rs).warnText == Bucket(rs, 1)
    ensures Fold(rs).unknownText == Bucket(rs, 3)
    decreases |rs|
  {
    if rs != [] {
      var init, r := rs[..|rs| - 1], rs[|rs| - 1];
      FoldTexts(init);
      assert Fold(rs) == Step(Fold(init), r);
    }
  }

  lemma {:induction false} FoldBody(rs: seq<Outcome>)
    ensures Fold(rs).multiline == Body(rs)
    decreases |rs|
  {
    if rs != [] {
      var init, r := rs[..|rs| - 1], rs[|rs| - 1];
      FoldBody(init);
      StepBody(Fold(init), r);
    }
  }

  lemma {:induction false} FoldPerf(rs: seq<Outcome>)
    ensures Fold(rs).perfdata == Perf(rs)
    decreases |rs|
  {
    if rs != [] {
      var init, r := rs[..|rs| - 1], rs[|rs| - 1];
      FoldPerf(init);
      StepPerf(Fold(init), r);
    }
  }

  /** One step adds a result's text to the body exactly when its code is below 1. */
  lemma StepBody(t: Totals, r: Outcome)
    ensures Step(t, r).multiline == t.multiline + (if r.code < 1 then r.text + "</br>\n" else "")
  {
  }

  /** One step adds a result's perfdata unless it is exactly the empty string. */
  lemma StepPerf(t: Totals, r: Outcome)
    ensures Step(t, r).perfdata == t.perfdata + (if r.perfdata != Some("") then r.perfdata.GetOr("") + " " else "")
  {
    if r.perfdata == Some("") {
      assert t.perfdata + "" == t.perfdata;
    }
  }

  lemma {:induction false} FoldCode(rs: seq<Outcome>)
    ensures IsMaxCode(rs, Fold(rs).code)
    decreases |rs|
  {
    if rs != [] {
      var init := rs[..|rs| - 1];
      var r := rs[|rs| - 1];
      FoldCode(init);
      var c := Fold(rs).code;
      assert forall i | 0 <= i < |init| :: init[i] == rs[i];
      if c != 0 && c != Fold(init).code {
        assert rs[|rs| - 1].code == c;
      }
      if c != 0 && c == Fold(init).code {
        var j :| 0 <= j < |init| && init[j].code == c;
        assert rs[j].code == c;
      }
    }
  }

  /** The exit code is the worst status among the results, counting only
      1 (WARNING), 2 (CRITICAL) and 3 (UNKNOWN), so UNKNOWN outranks
      CRITICAL; it is 0 when no result has one of those codes. */
  lemma ExitCodeIsMax(rs: seq<Outcome>)
    ensures 0 <= Aggregate(rs).exitCode <= 3
    ensures forall i | 0 <= i < |rs| && 1 <= rs[i].code <= 3 :: rs[i].code <= Aggregate(rs).exitCode
    ensures Aggregate(rs).exitCode == 0 || exists i | 0 <= i < |rs| :: rs[i].code == Aggregate(rs).exitCode
  {
    FoldIsBucketed(rs);
  }

  /** The exit code depends only on which results there are, not on the
      order in which the probes appended them. */
  lemma ExitCodeOrderIndependent(a: seq<Outcome>, b: seq<Outcome>)
    requires multiset(a) == multiset(b)
    ensures Aggregate(a).exitCode == Aggregate(b).exitCode
  {
    FoldIsBucketed(a);
    FoldIsBucketed(b);
    MaxCodeBelow(a, b, Fold(a).code, Fold(b).code);
    MaxCodeBelow(b, a, Fold(b).code, Fold(a).code);
  }

  lemma MaxCodeBelow(a: seq<Outcome>, b: seq<Outcome>, ca: int, cb: int)
    requires multiset(a) <= multiset(b)
    requires IsMaxCode(a, ca) && IsMaxCode(b, cb)
    ensures ca <= cb
  {
    if ca != 0 {
      var i :| 0 <= i < |a| && a[i].code == ca;
      assert a[i] in multiset(b);
      var j :| 0 <= j < |b| && b[j] == a[i];
    }
  }

  /** A severity bucket stays empty exactly when no result has that code. */
  lemma {:induction false} BucketEmpty(rs: seq<Outcome>, c: int)
    ensures Bucket(rs, c) == "" <==> forall i | 0 <= i < |rs| :: rs[i].code != c
    decreases |rs|
  {
    if rs != [] {
      var init := rs[..|rs| - 1];
      BucketEmpty(init, c);
      assert forall i | 0 <= i < |init| :: init[i] == rs[i];
      if rs[|rs| - 1].code == c {
        assert |Bucket(rs, c)| >= |rs[|rs| - 1].text + " "|;
      }
    }
  }

  /** The printed line: CRITICAL texts, then WARNING texts (or the all-clear
      sentinel exactly when the exit code is 0), then UNKNOWN texts, a bar,
      the perfdata, a line feed and the OK body with its final line feed
      chomped. */
  lemma OutputLine(rs: seq<Outcome>)
    ensures Aggregate(rs).line
         == Bucket(rs, 2) + (if Aggregate(rs).exitCode == 0 then Sentinel else Bucket(rs, 1))
            + Bucket(rs, 3) + "|" + Perf(rs) + "\n" + Chomp(Body(rs))
  {
    FoldIsBucketed(rs);
    BucketEmpty(rs, 1);
    BucketEmpty(rs, 2);
    BucketEmpty(rs, 3);
    if Fold(rs).code != 0 {
      var i :| 0 <= i < |rs| && rs[i].code == Fold(rs).code;
    }
  }

  /** `chomp` and `puts` cancel: standard output ends with the whole OK body,
      including its last line feed, or with the line feed after the
      perfdata when the body is empty. */
  lemma StdoutKeepsBody(rs: seq<Outcome>)
    ensures Stdout(rs) == Summary(Fold(rs)) + "|" + Perf(rs) + "\n" + Body(rs)
  {
    FoldIsBucketed(rs);
    BodyShape(rs);
    var head := Summary(Fold(rs)) + "|" + Perf(rs) + "\n";
    assert Aggregate(rs).line == head + Chomp(Body(rs));
    PutsChomp(head, Body(rs));
  }

  /** `puts` after `chomp` gives back a body that ends in `>` and a line
      feed, and the line feed that ends the head when the body is empty. */
  lemma PutsChomp(head: string, body: string)
    requires head != [] && head[|head| - 1] == '\n'
    requires body == [] || (|body| >= 2 && body[|body| - 2..] == ">\n")
    ensures Puts(head + Chomp(body)) == head + body
  {
    if body == [] {
      assert head + Chomp(body) == head;
    } else {
      assert body[|body| - 2] == '>' && body[|body| - 1] == '\n';
      assert Chomp(body) == body[..|body| - 1];
      assert head + body == (head + body[..|body| - 1]) + "\n";
    }
  }

  /** The OK body is empty or ends in `>` and a line feed. */
  lemma {:induction false} BodyShape(rs: seq<Outcome>)
    ensures Body(rs) == [] || (|Body(rs)| >= 2 && Body(rs)[|Body(rs)| - 2..] == ">\n")
    decreases |rs|
  {
    if rs != [] {
      BodyShape(rs[..|rs| - 1]);
    }
  }

  /** A result with a code of 4 or more adds its perfdata and nothing else. */
  lemma IgnoredCode(rs: seq<Outcome>, r: Outcome)
    requires r.code >= 4
    ensures Fold(rs + [r]) == Fold(rs).(perfdata := Perf(rs + [r]))
  {
    assert (rs + [r])[..|rs|] == rs;
    FoldIsBucketed(rs);
  }
}
