/** check_ntp: the clock offset against the system peer, the line of
    `ntpq -np` that starts with `*`. The offset column is in milliseconds
    and is reported in seconds. */
module Ntp {
  import opened Wrappers
  import opened Lines
  import opened Numbers
  import opened Probe

  /** The offset and the server name the probe reports. Before any peer
      line is seen the offset is the integer 999 and the server `unknown`. */
  datatype Peer = Peer(offset: Option<real>, server: string)

  const Unknown: Peer := Peer(None, "unknown")

  /** The offset the ladder compares: 999 while no peer was found. */
  function OffsetValue(p: Peer): real {
    p.offset.GetOr(999.0)
  }

  /** `Float#abs`. */
  function Abs(x: real): (r: real)
    ensures r >= 0.0 && (r == x || r == -x)
  {
    if x < 0.0 then -x else x
  }

  /** A line of the system peer. */
  predicate IsPeerLine(line: string) {
    line != [] && line[0] == '*'
  }

  /** The reading of a peer line. */
  function PeerOf(line: string): (p: Peer)
    requires IsPeerLine(line)
    ensures p.offset.Some? && p.offset.value >= 0.0
  {
    var ws := Words(line);
    assert ws == [line[..WordLen(line)]] + Words(line[WordLen(line)..]);
    PeerOfWords(ws)
  }

  /** The reading of the columns of a peer line: the second-to-last column
      (`nil.to_f`, 0, when there is only one) divided by 1000 and made
      non-negative; the server is the first column without its `*`. */
  function PeerOfWords(ws: seq<string>): (p: Peer)
    requires ws != [] && ws[0] != []
    ensures p.offset.Some? && p.offset.value >= 0.0
  {
    var ms := match FromEnd(ws, 2) case None => 0.0 case Some(w) => ToF(w);
    Peer(Some(Abs(ms / 1000.0)), ws[0][1..])
  }

  /** The state after reading `lines` in order: each peer line replaces the
      previous reading, other lines leave it alone. */
  function Scan(lines: seq<string>): Peer {
    if lines == [] then Unknown
    else
      var last := lines[|lines| - 1];
      if IsPeerLine(last) then PeerOf(last) else Scan(lines[..|lines| - 1])
  }

  /** The probe's result. `show` is Ruby's `Float#to_s`, which writes small
      offsets in exponent form (`1.0e-05`); the integer default prints as
      `999`. */
  function CheckNtp(warn: int, crit: int, output: string, show: real -> string): (r: Outcome)
    ensures OK <= r.code <= CRITICAL
    ensures r.perfdata.Some?
  {
    var p := Scan(SplitLines(output));
    var code := Ladder(OffsetValue(p), warn as real, crit as real);
    var shown := match p.offset case None => "999" case Some(x) => show(x);
    Outcome(code, NtpText(code, shown, p.server),
            Some(RenderMetrics([Metric("ntp_offset", shown + "s", [ShowInt(warn), ShowInt(crit)])])))
  }

  function NtpText(code: int, shown: string, server: string): string {
    LadderWord(code) + " - NTP offset: " + shown + " seconds against " + server
  }

  // ---------------------------------------------------------------------
  // Properties
  // ---------------------------------------------------------------------

  /** Without a peer line the reading is the default. */
  lemma {:induction false} NoPeerIsUnknown(lines: seq<string>)
    requires forall i | 0 <= i < |lines| :: !IsPeerLine(lines[i])
    ensures Scan(lines) == Unknown
  {
    if lines != [] {
      NoPeerIsUnknown(lines[..|lines| - 1]);
    }
  }

  /** With peer lines, the last one alone decides the reading. */
  lemma {:induction false} LastPeerWins(lines: seq<string>, i: nat)
    requires i < |lines| && IsPeerLine(lines[i])
    requires forall j | i < j < |lines| :: !IsPeerLine(lines[j])
    ensures Scan(lines) == PeerOf(lines[i])
  {
    if i < |lines| - 1 {
      LastPeerWins(lines[..|lines| - 1], i);
    }
  }

  /** Without a peer the probe reports offset 999 against `unknown`, which
      is CRITICAL for every critical threshold up to 999 seconds. */
  lemma NoPeerOutcome(warn: int, crit: int, output: string, show: real -> string)
    requires forall i | 0 <= i < |SplitLines(output)| :: !IsPeerLine(SplitLines(output)[i])
    ensures var r := CheckNtp(warn, crit, output, show);
      && r.text == NtpText(r.code, "999", "unknown")
      && (r.code == CRITICAL <==> crit <= 999)
      && r.perfdata == Some(RenderMetrics([Metric("ntp_offset", "999s", [ShowInt(warn), ShowInt(crit)])]))
  {
    NoPeerIsUnknown(SplitLines(output));
    assert "999" + "s" == "999s";
  }

  /** The code is CRITICAL from `crit` seconds of offset, WARNING from `warn`,
      and OK below both. */
  lemma NtpBands(warn: int, crit: int, output: string, show: real -> string)
    ensures var c, v := CheckNtp(warn, crit, output, show).code, OffsetValue(Scan(SplitLines(output)));
      && (c == CRITICAL <==> v >= crit as real)
      && (c == WARNING <==> warn as real <= v < crit as real)
      && (c == OK <==> v < warn as real && v < crit as real)
  {
    LadderBands(OffsetValue(Scan(SplitLines(output))), warn as real, crit as real);
  }

  /** A peer line of plain columns is read as its first column without the
      `*` and its second-to-last column in seconds. */
  lemma PeerOfColumns(ws: seq<string>)
    requires |ws| >= 2
    requires forall i | 0 <= i < |ws| :: ws[i] != "" && NoSpace(ws[i])
    requires ws[0][0] == '*'
    ensures var line := JoinWith(ws, ' ');
      && IsPeerLine(line)
      && PeerOf(line).server == ws[0][1..]
      && PeerOf(line).offset == Some(Abs(ToF(ws[|ws| - 2]) / 1000.0))
  {
    var line := JoinWith(ws, ' ');
    PeerLineOfColumns(ws);
    assert PeerOf(line) == PeerOfWords(ws);
    ReadingOfColumns(ws);
  }

  /** The reading of two or more columns uses the second-to-last. */
  lemma ReadingOfColumns(ws: seq<string>)
    requires |ws| >= 2 && ws[0] != []
    ensures PeerOfWords(ws) == Peer(Some(Abs(ToF(ws[|ws| - 2]) / 1000.0)), ws[0][1..])
  {
    assert FromEnd(ws, 2) == Some(ws[|ws| - 2]);
  }

  /** Such a line is a peer line whose columns are the words joined. */
  lemma PeerLineOfColumns(ws: seq<string>)
    requires |ws| >= 2
    requires forall i | 0 <= i < |ws| :: ws[i] != "" && NoSpace(ws[i])
    requires ws[0][0] == '*'
    ensures IsPeerLine(JoinWith(ws, ' ')) && Words(JoinWith(ws, ' ')) == ws
  {
    JoinStartsWithFirst(ws);
    WordsOfJoin(ws);
  }

  /** A join starts with the first character of its first part. */
  lemma JoinStartsWithFirst(ws: seq<string>)
    requires |ws| >= 2 && ws[0] != ""
    ensures JoinWith(ws, ' ') != [] && JoinWith(ws, ' ')[0] == ws[0][0]
  {
    var rest := [' '] + JoinWith(ws[1..], ' ');
    assert JoinWith(ws, ' ') == ws[0] + rest;
    assert (ws[0] + rest)[0] == ws[0][0];
  }

  /** In a full `ntpq` listing the last peer line decides code, text and
      perfdata. */
  lemma NtpOfListing(ls: seq<string>, i: nat, warn: int, crit: int, show: real -> string)
    requires i < |ls| && IsPeerLine(ls[i])
    requires forall j | i < j < |ls| :: !IsPeerLine(ls[j])
    requires forall j | 0 <= j < |ls| :: '\n' !in ls[j]
    requires ls[|ls| - 1] != ""
    ensures var r, p := CheckNtp(warn, crit, JoinWith(ls, '\n') + "\n", show), PeerOf(ls[i]);
      && r.code == Ladder(p.offset.value, warn as real, crit as real)
      && r.text == NtpText(r.code, show(p.offset.value), p.server)
  {
    SplitLinesOfOutput(ls);
    LastPeerWins(ls, i);
  }
}
