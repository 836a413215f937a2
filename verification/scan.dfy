/** Right-to-left scanners for the regular expressions the probes anchor
    at the end of a line: the longest run of digits, or of white space,
    that ends a string, and where it starts. */
module Scan {
  import opened Lines
  import opened Numbers

  /** Where the longest run of digits that ends `s` starts. */
  function DigitSuffixStart(s: string): (i: nat)
    ensures i <= |s|
    ensures AllDigits(s[i..])
    ensures i > 0 ==> !IsDigit(s[i - 1])
    decreases |s|
  {
    if s == [] || !IsDigit(s[|s| - 1]) then |s|
    else
      var p := s[..|s| - 1];
      var i := DigitSuffixStart(p);
      assert s[i..] == p[i..] + [s[|s| - 1]];
      AllDigitsSnoc(p[i..], s[|s| - 1]);
      assert i > 0 ==> s[i - 1] == p[i - 1];
      i
  }

  /** Where the longest run of white space that ends `s` starts. */
  function SpaceSuffixStart(s: string): (i: nat)
    ensures i <= |s|
    ensures AllSpace(s[i..])
    ensures i > 0 ==> !IsSpace(s[i - 1])
    decreases |s|
  {
    if s == [] || !IsSpace(s[|s| - 1]) then |s|
    else
      var p := s[..|s| - 1];
      var i := SpaceSuffixStart(p);
      assert s[i..] == p[i..] + [s[|s| - 1]];
      AllSpaceSnoc(p[i..], s[|s| - 1]);
      assert i > 0 ==> s[i - 1] == p[i - 1];
      i
  }

  lemma AllDigitsSnoc(a: string, c: char)
    requires AllDigits(a) && IsDigit(c)
    ensures AllDigits(a + [c])
  {
    forall k | 0 <= k < |a + [c]| ensures IsDigit((a + [c])[k]) {
      if k < |a| {
        assert (a + [c])[k] == a[k];
      }
    }
  }

  lemma AllSpaceSnoc(a: string, c: char)
    requires AllSpace(a) && IsSpace(c)
    ensures AllSpace(a + [c])
  {
    forall k | 0 <= k < |a + [c]| ensures IsSpace((a + [c])[k]) {
      if k < |a| {
        assert (a + [c])[k] == a[k];
      }
    }
  }

  /** Text that a token may directly follow: the start of the line or a non-digit. */
  predicate EndsOutsideNumber(s: string) {
    s == [] || !IsDigit(s[|s| - 1])
  }

  lemma {:induction false} DigitSuffixStartOf(a: string, b: string)
    requires EndsOutsideNumber(a) && AllDigits(b)
    ensures DigitSuffixStart(a + b) == |a|
    decreases |b|
  {
    if b == [] {
      assert a + b == a;
    } else {
      assert (a + b)[..|a + b| - 1] == a + b[..|b| - 1];
      DigitSuffixStartOf(a, b[..|b| - 1]);
    }
  }

  lemma {:induction false} SpaceSuffixStartOf(a: string, b: string)
    requires (a == [] || !IsSpace(a[|a| - 1])) && AllSpace(b)
    ensures SpaceSuffixStart(a + b) == |a|
    decreases |b|
  {
    if b == [] {
      assert a + b == a;
    } else {
      assert (a + b)[..|a + b| - 1] == a + b[..|b| - 1];
      SpaceSuffixStartOf(a, b[..|b| - 1]);
    }
  }
}
