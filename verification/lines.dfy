/** The Ruby string operations the probes apply to captured command output:
    `split` on a one-character string, awk-style `split(" ")`, `join`,
    `chomp`, `IO#each_line`, and indexing an array with a negative index. */
module Lines {
  import opened Wrappers

  /** Ruby's `\s` class, which is also the separator set of `split(" ")`:
      space, tab, line feed, vertical tab, form feed and carriage return. */
  predicate IsSpace(c: char) {
    c == ' ' || c == '\t' || c == '\n' || c == '\U{B}' || c == '\U{C}' || c == '\r'
  }

  predicate NoSpace(s: string) {
    forall i | 0 <= i < |s| :: !IsSpace(s[i])
  }

  predicate AllSpace(s: string) {
    forall i | 0 <= i < |s| :: IsSpace(s[i])
  }

  /** Ruby's `end_with?`. */
  predicate EndsWith(s: string, e: string) {
    |e| <= |s| && s[|s| - |e|..] == e
  }

  /** `xs[-k]`: the k-th element from the end, or `nil` when `xs` is too short. */
  function FromEnd<T>(xs: seq<T>, k: nat): (r: Option<T>)
    requires k >= 1
    ensures r.Some? <==> k <= |xs|
  {
    if k <= |xs| then Some(xs[|xs| - k]) else None
  }

  // ---------------------------------------------------------------------
  // Splitting on one separator character, and joining back
  // ---------------------------------------------------------------------

  /** Every field of `s` between occurrences of `sep`, empty fields included. */
  function Fields(s: string, sep: char): (fs: seq<string>)
    ensures |fs| >= 1
    ensures forall i | 0 <= i < |fs| :: sep !in fs[i]
    decreases |s|
  {
    if s == [] then [""]
    else
      var rest := Fields(s[1..], sep);
      if s[0] == sep then [""] + rest
      else [[s[0]] + rest[0]] + rest[1..]
  }

  /** Ruby's `xs.join(sep)`; the empty array joins to the empty string. */
  function JoinWith(xs: seq<string>, sep: char): string
  {
    if xs == [] then ""
    else if |xs| == 1 then xs[0]
    else xs[0] + [sep] + JoinWith(xs[1..], sep)
  }

  /** Joining the fields of `s` gives `s` back. */
  lemma {:induction false} JoinFields(s: string, sep: char)
    ensures JoinWith(Fields(s, sep), sep) == s
    decreases |s|
  {
    if s != [] {
      JoinFields(s[1..], sep);
      var rest := Fields(s[1..], sep);
      if s[0] == sep {
        assert Fields(s, sep) == [""] + rest;
        assert ([""] + rest)[1..] == rest;
        assert s == [sep] + s[1..];
      } else {
        var fs := Fields(s, sep);
        assert fs == [[s[0]] + rest[0]] + rest[1..];
        if |rest| == 1 {
          assert rest == [rest[0]];
          assert s == [s[0]] + rest[0];
        } else {
          assert fs[1..] == rest[1..];
          assert JoinWith(rest, sep) == rest[0] + [sep] + JoinWith(rest[1..], sep);
          assert s == [s[0]] + s[1..];
        }
      }
    }
  }

  lemma {:induction false} FieldsOfPlain(a: string, sep: char)
    requires sep !in a
    ensures Fields(a, sep) == [a]
    decreases |a|
  {
    if a != [] {
      assert sep !in a[1..];
      FieldsOfPlain(a[1..], sep);
      assert [a[0]] + a[1..] == a;
    }
  }

  lemma {:induction false} FieldsCons(a: string, sep: char, b: string)
    requires sep !in a
    ensures Fields(a + [sep] + b, sep) == [a] + Fields(b, sep)
    decreases |a|
  {
    var s := a + [sep] + b;
    if a == [] {
      assert s[1..] == b;
    } else {
      assert s[1..] == a[1..] + [sep] + b;
      assert sep !in a[1..];
      FieldsCons(a[1..], sep, b);
      assert [a[0]] + a[1..] == a;
    }
  }

  /** Splitting a join gives back the parts, provided none holds the separator. */
  lemma {:induction false} FieldsOfJoin(xs: seq<string>, sep: char)
    requires |xs| >= 1
    requires forall i | 0 <= i < |xs| :: sep !in xs[i]
    ensures Fields(JoinWith(xs, sep), sep) == xs
    decreases |xs|
  {
    if |xs| == 1 {
      FieldsOfPlain(xs[0], sep);
    } else {
      FieldsOfJoin(xs[1..], sep);
      FieldsCons(xs[0], sep, JoinWith(xs[1..], sep));
      assert [xs[0]] + xs[1..] == xs;
    }
  }

  lemma {:induction false} JoinSnoc(xs: seq<string>, sep: char, x: string)
    requires |xs| >= 1
    ensures JoinWith(xs + [x], sep) == JoinWith(xs, sep) + [sep] + x
    decreases |xs|
  {
    if |xs| == 1 {
      assert (xs + [x])[1..] == [x];
    } else {
      assert (xs + [x])[1..] == xs[1..] + [x];
      JoinSnoc(xs[1..], sep, x);
    }
  }

  // ---------------------------------------------------------------------
  // Lines
  // ---------------------------------------------------------------------

  /** Drops the empty strings at the end of `xs`, as Ruby's `split` does. */
  function DropTrailingEmpty(xs: seq<string>): (ys: seq<string>)
    ensures |ys| <= |xs| && ys == xs[..|ys|]
    ensures ys == [] || ys[|ys| - 1] != ""
    ensures forall i | |ys| <= i < |xs| :: xs[i] == ""
  {
    if xs == [] || xs[|xs| - 1] != "" then xs
    else DropTrailingEmpty(xs[..|xs| - 1])
  }

  /** Ruby's `s.split("\n")`: trailing empty lines are dropped, leading ones kept. */
  function SplitLines(s: string): seq<string> {
    DropTrailingEmpty(Fields(s, '\n'))
  }

  /** Lines that hold no line feed and do not end in an empty line are exactly
      what `split("\n")` returns for their join. */
  lemma {:induction false} SplitLinesOfJoin(ls: seq<string>)
    requires forall i | 0 <= i < |ls| :: '\n' !in ls[i]
    requires ls == [] || ls[|ls| - 1] != ""
    ensures SplitLines(JoinWith(ls, '\n')) == ls
  {
    if ls != [] {
      FieldsOfJoin(ls, '\n');
    }
  }

  /** The same holds when the output ends in a line feed, as command output does. */
  lemma {:induction false} SplitLinesOfOutput(ls: seq<string>)
    requires forall i | 0 <= i < |ls| :: '\n' !in ls[i]
    requires ls == [] || ls[|ls| - 1] != ""
    ensures SplitLines(JoinWith(ls, '\n') + "\n") == ls
  {
    if ls == [] {
      assert JoinWith(ls, '\n') + "\n" == "\n";
      assert "\n"[1..] == "";
      assert Fields("\n", '\n') == ["", ""];
      assert DropTrailingEmpty(["", ""]) == DropTrailingEmpty([""]);
    } else {
      var ext := ls + [""];
      JoinSnoc(ls, '\n', "");
      assert JoinWith(ls, '\n') + "\n" == JoinWith(ext, '\n');
      assert forall i | 0 <= i < |ext| :: '\n' !in ext[i];
      FieldsOfJoin(ext, '\n');
      assert ext[..|ls|] == ls;
      assert DropTrailingEmpty(ext) == DropTrailingEmpty(ls);
    }
  }

  /** The lines `IO#each_line` yields, each without its terminating line feed
      (a final line feed does not start another line). */
  function EachLine(s: string): (ls: seq<string>)
    ensures forall i | 0 <= i < |ls| :: '\n' !in ls[i]
  {
    if s == [] then []
    else
      var fs := Fields(s, '\n');
      if fs[|fs| - 1] == "" then fs[..|fs| - 1] else fs
  }

  /** Lines without line feeds, each terminated by one, are read back one by one. */
  lemma EachLineOfOutput(ls: seq<string>)
    requires ls != []
    requires forall i | 0 <= i < |ls| :: '\n' !in ls[i]
    ensures EachLine(JoinWith(ls, '\n') + "\n") == ls
  {
    var ext := ls + [""];
    JoinSnoc(ls, '\n', "");
    assert JoinWith(ls, '\n') + "\n" == JoinWith(ext, '\n');
    assert forall i | 0 <= i < |ext| :: '\n' !in ext[i];
    FieldsOfJoin(ext, '\n');
    assert ext[..|ext| - 1] == ls;
  }

  /** Ruby's argument-less `chomp`: removes one trailing "\r\n", "\n" or "\r". */
  function Chomp(s: string): (r: string)
    ensures |s| - 2 <= |r| <= |s|
    ensures r == s[..|r|]
  {
    if |s| >= 2 && s[|s| - 2..] == "\r\n" then s[..|s| - 2]
    else if |s| >= 1 && (s[|s| - 1] == '\n' || s[|s| - 1] == '\r') then s[..|s| - 1]
    else s
  }

  // ---------------------------------------------------------------------
  // awk-style split on runs of white space
  // ---------------------------------------------------------------------

  /** Length of the leading run of non-space characters. */
  function WordLen(s: string): (k: nat)
    ensures k <= |s|
    ensures NoSpace(s[..k])
    ensures k < |s| ==> IsSpace(s[k])
    ensures |s| > 0 && !IsSpace(s[0]) ==> k >= 1
  {
    if s == [] || IsSpace(s[0]) then 0
    else
      var k := 1 + WordLen(s[1..]);
      assert s[..k] == [s[0]] + s[1..][..k - 1];
      k
  }

  /** Ruby's `s.split(" ")`: the maximal runs of non-space characters. */
  function Words(s: string): (ws: seq<string>)
    ensures forall i | 0 <= i < |ws| :: ws[i] != "" && NoSpace(ws[i])
    decreases |s|
  {
    if s == [] then []
    else if IsSpace(s[0]) then Words(s[1..])
    else
      var k := WordLen(s);
      [s[..k]] + Words(s[k..])
  }

  lemma {:induction false} WordLenStopsAtSpace(a: string, c: char, b: string)
    requires IsSpace(c)
    ensures WordLen(a + [c] + b) == WordLen(a)
    decreases |a|
  {
    if a != [] && !IsSpace(a[0]) {
      assert (a + [c] + b)[1..] == a[1..] + [c] + b;
      WordLenStopsAtSpace(a[1..], c, b);
    }
  }

  /** A white-space character splits the words of a string in two. */
  lemma {:induction false} WordsAcrossSpace(a: string, c: char, b: string)
    requires IsSpace(c)
    ensures Words(a + [c] + b) == Words(a) + Words(b)
    decreases |a|
  {
    var s := a + [c] + b;
    if a == [] {
      assert s[1..] == b;
    } else if IsSpace(a[0]) {
      assert s[1..] == a[1..] + [c] + b;
      WordsAcrossSpace(a[1..], c, b);
    } else {
      WordLenStopsAtSpace(a, c, b);
      var k := WordLen(a);
      assert s[..k] == a[..k];
      assert s[k..] == a[k..] + [c] + b;
      WordsAcrossSpace(a[k..], c, b);
    }
  }

  lemma {:induction false} WordLenOfWord(w: string)
    requires NoSpace(w)
    ensures WordLen(w) == |w|
    decreases |w|
  {
    if w != [] {
      WordLenOfWord(w[1..]);
    }
  }

  /** A non-empty string without white space is one word. */
  lemma WordsOfWord(w: string)
    requires w != [] && NoSpace(w)
    ensures Words(w) == [w]
  {
    WordLenOfWord(w);
    assert w[..|w|] == w;
    assert w[|w|..] == [];
    assert Words(w) == [w[..|w|]] + Words(w[|w|..]);
  }

  /** Splitting a space-join of words gives the words back. */
  lemma {:induction false} WordsOfJoin(ws: seq<string>)
    requires forall i | 0 <= i < |ws| :: ws[i] != "" && NoSpace(ws[i])
    ensures Words(JoinWith(ws, ' ')) == ws
    decreases |ws|
  {
    if |ws| == 1 {
      WordsOfWord(ws[0]);
    } else if |ws| > 1 {
      WordsOfJoin(ws[1..]);
      WordsOfWord(ws[0]);
      WordsAcrossSpace(ws[0], ' ', JoinWith(ws[1..], ' '));
      assert [ws[0]] + ws[1..] == ws;
    }
  }

  /** A string of white space has no words. */
  lemma {:induction false} WordsOfSpace(s: string)
    requires AllSpace(s)
    ensures Words(s) == []
    decreases |s|
  {
    if s != [] {
      WordsOfSpace(s[1..]);
    }
  }

  /** A final line feed adds no word. */
  lemma WordsOfLine(s: string)
    ensures Words(s + "\n") == Words(s)
  {
    WordsAcrossSpace(s, '\n', "");
    assert s + ['\n'] + "" == s + "\n";
  }

  /** A line of words joined by spaces splits into those words. */
  lemma WordsOfJoinedLine(ws: seq<string>)
    requires forall i | 0 <= i < |ws| :: ws[i] != "" && NoSpace(ws[i])
    ensures Words(JoinWith(ws, ' ') + "\n") == ws
  {
    WordsOfLine(JoinWith(ws, ' '));
    WordsOfJoin(ws);
  }

  /** A line of words ending in one more word splits into them all. */
  lemma WordsOfJoinedLineSnoc(ws: seq<string>, w: string)
    requires forall i | 0 <= i < |ws| :: ws[i] != "" && NoSpace(ws[i])
    requires w != "" && NoSpace(w)
    ensures Words(JoinWith(ws + [w], ' ') + "\n") == ws + [w]
  {
    var all := ws + [w];
    forall i | 0 <= i < |all|
      ensures all[i] != "" && NoSpace(all[i])
    {
      if i < |ws| {
        assert all[i] == ws[i];
      }
    }
    WordsOfJoinedLine(all);
  }

  /** Two lines, each ended by a line feed, split back into the two. */
  lemma SplitTwoLines(a: string, b: string)
    requires '\n' !in a && '\n' !in b && b != ""
    ensures SplitLines(a + "\n" + b + "\n") == [a, b]
  {
    var ls := [a, b];
    assert JoinWith(ls, '\n') == a + "\n" + b by {
      assert ls[1..] == [b];
    }
    SplitLinesOfOutput(ls);
  }
}
