/** The condensed job status string (fio4emu/eta.c): runs of equal characters become c(n), joined by commas. */
module StatusString {
  import opened Options

  datatype Run = Run(c: char, n: nat)

  // ----- decimal numbers -----

  function Digit(d: nat): char
    requires d < 10
  {
    '0' + d as char
  }

  predicate IsDigit(c: char) {
    '0' <= c <= '9'
  }

  function DigitValue(c: char): nat
    requires IsDigit(c)
  {
    c as nat - '0' as nat
  }

  /** %u */
  function Digits(n: nat): (s: string)
    ensures s != [] && forall i :: 0 <= i < |s| ==> IsDigit(s[i])
    ensures s[0] == '0' <==> n == 0
  {
    if n < 10 then [Digit(n)] else Digits(n / 10) + [Digit(n % 10)]
  }

  function Value(s: string): nat
    requires forall i :: 0 <= i < |s| ==> IsDigit(s[i])
  {
    if s == [] then 0 else 10 * Value(s[..|s| - 1]) + DigitValue(s[|s| - 1])
  }

  lemma {:induction false} ValueOfDigits(n: nat)
    ensures Value(Digits(n)) == n
  {
    var s := Digits(n);
    if n < 10 {
      assert s[..|s| - 1] == [];
    } else {
      assert s[..|s| - 1] == Digits(n / 10);
      ValueOfDigits(n / 10);
    }
  }

  // ----- runs -----

  /** The runs of a string, with counts. */
  function Runs(s: string): seq<Run> {
    if s == [] then []
    else var k := RunLength(s, 1); [Run(s[0], k)] + Runs(s[k..])
  }

  /** How far the run that starts at the front extends, given that its first k characters agree. */
  function RunLength(s: string, k: nat): (n: nat)
    requires 1 <= k <= |s|
    ensures k <= n <= |s|
    decreases |s| - k
  {
    if k < |s| && s[k - 1] == s[k] then RunLength(s, k + 1) else k
  }

  function Repeat(c: char, n: nat): (r: string)
    ensures |r| == n && forall i :: 0 <= i < n ==> r[i] == c
  {
    if n == 0 then [] else [c] + Repeat(c, n - 1)
  }

  function Expand(runs: seq<Run>): string {
    if runs == [] then [] else Repeat(runs[0].c, runs[0].n) + Expand(runs[1..])
  }

  function Total(runs: seq<Run>): nat {
    if runs == [] then 0 else runs[0].n + Total(runs[1..])
  }

  lemma {:induction false} RunIsUniform(s: string, k: nat)
    requires 1 <= k <= |s| && forall i :: 0 <= i < k ==> s[i] == s[0]
    ensures forall i :: 0 <= i < RunLength(s, k) ==> s[i] == s[0]
    ensures RunLength(s, k) < |s| ==> s[RunLength(s, k)] != s[0]
    decreases |s| - k
  {
    if k < |s| && s[k - 1] == s[k] { RunIsUniform(s, k + 1); }
  }

  lemma {:induction false} FirstRun(s: string)
    requires s != []
    ensures Runs(s) == [Run(s[0], RunLength(s, 1))] + Runs(s[RunLength(s, 1)..])
  {}

  /** Putting a run in front of what is already written out. */
  lemma {:induction false} ExpandFirst(s: string, k: nat, runs: seq<Run>)
    requires 1 <= k <= |s| && forall i :: 0 <= i < k ==> s[i] == s[0]
    requires Expand(runs) == s[k..] && Total(runs) == |s| - k
    ensures Expand([Run(s[0], k)] + runs) == s && Total([Run(s[0], k)] + runs) == |s|
  {
    assert ([Run(s[0], k)] + runs)[1..] == runs;
    assert Repeat(s[0], k) == s[..k];
  }

  /** Writing the runs out gives the string again; their counts add up to its length. */
  lemma {:induction false} ExpandRuns(s: string)
    ensures Total(Runs(s)) == |s| && Expand(Runs(s)) == s
    decreases |s|
  {
    if s != [] {
      var k := RunLength(s, 1);
      RunIsUniform(s, 1);
      ExpandRuns(s[k..]);
      FirstRun(s);
      ExpandFirst(s, k, Runs(s[k..]));
    }
  }

  /** Counts are positive and neighbouring runs have different characters. */
  lemma {:induction false} RunsAreMaximal(s: string)
    ensures forall i :: 0 <= i < |Runs(s)| ==> Runs(s)[i].n >= 1
    ensures forall i :: 0 <= i < |Runs(s)| - 1 ==> Runs(s)[i].c != Runs(s)[i + 1].c
    decreases |s|
  {
    if s != [] {
      var k := RunLength(s, 1);
      RunIsUniform(s, 1);
      RunsAreMaximal(s[k..]);
      assert k < |s| ==> Runs(s)[1].c == s[k];
    }
  }

  // ----- the condensed string -----

  function Show(r: Run): string {
    [r.c] + "(" + Digits(r.n) + ")"
  }

  function Render(runs: seq<Run>): string {
    if runs == [] then []
    else if |runs| == 1 then Show(runs[0])
    else Show(runs[0]) + "," + Render(runs[1..])
  }

  function LeadingDigits(s: string): (k: nat)
    ensures k <= |s| && forall i :: 0 <= i < k ==> IsDigit(s[i])
  {
    if s == [] || !IsDigit(s[0]) then 0 else 1 + LeadingDigits(s[1..])
  }

  /** Reading a condensed string back. */
  function Decode(t: string): Option<string>
    decreases |t|
  {
    if t == [] then Some([])
    else if |t| < 2 || t[1] != '(' then None
    else
      var k := LeadingDigits(t[2..]);
      if k == 0 || 2 + k >= |t| || t[2 + k] != ')' then None
      else
        var run := Repeat(t[0], Value(t[2..][..k]));
        var rest := t[3 + k..];
        if rest == [] then Some(run)
        else if rest[0] != ',' || |rest| == 1 then None
        else
          match Decode(rest[1..])
          case None => None
          case Some(tail) => Some(run + tail)
  }

  lemma {:induction false} DigitsStop(d: string, x: string)
    requires forall i :: 0 <= i < |d| ==> IsDigit(d[i])
    requires x != [] && !IsDigit(x[0])
    ensures LeadingDigits(d + x) == |d|
  {
    if d == [] {
      assert d + x == x;
    } else {
      assert (d + x)[1..] == d[1..] + x;
      DigitsStop(d[1..], x);
    }
  }

  /** Reading one run back. */
  lemma {:induction false} DecodeStep(r: Run, tail: string)
    requires tail != [] ==> tail[0] == ',' && |tail| > 1
    ensures var run := Repeat(r.c, r.n);
      Decode(Show(r) + tail) ==
        if tail == [] then Some(run)
        else match Decode(tail[1..])
          case None => None
          case Some(x) => Some(run + x)
  {
    var t, d := Show(r) + tail, Digits(r.n);
    var rest := ")" + tail;
    assert t[2..] == d + rest;
    DigitsStop(d, rest);
    assert t[2..][..|d|] == d;
    assert t[3 + |d|..] == tail;
    ValueOfDigits(r.n);
  }

  /** Decoding undoes rendering, whatever characters the runs consist of. */
  lemma {:induction false} DecodeRender(runs: seq<Run>)
    ensures Decode(Render(runs)) == Some(Expand(runs))
  {
    if |runs| == 1 {
      assert Show(runs[0]) + [] == Show(runs[0]);
      DecodeStep(runs[0], []);
      var run := Repeat(runs[0].c, runs[0].n);
      assert Expand(runs) == run + [] && run + [] == run;
    } else if |runs| > 1 {
      var more := Render(runs[1..]);
      assert Render(runs) == Show(runs[0]) + ("," + more);
      assert more != [] && ("," + more)[1..] == more;
      DecodeStep(runs[0], "," + more);
      DecodeRender(runs[1..]);
    }
  }

  /** Round trip for every status string. */
  lemma CondensedRoundTrip(s: string)
    ensures Decode(Render(Runs(s))) == Some(s)
  {
    DecodeRender(Runs(s));
    ExpandRuns(s);
  }

  // ----- the code -----

  /** What one turn of the outer loop writes. */
  function Written(r: Run): string {
    Show(r) + ","
  }

  function AllWritten(runs: seq<Run>): string {
    if runs == [] then [] else AllWritten(runs[..|runs| - 1]) + Written(runs[|runs| - 1])
  }

  /** Everything written, without the last comma, is the rendering. */
  lemma {:induction false} WrittenIsRender(runs: seq<Run>)
    requires runs != []
    ensures AllWritten(runs) == Render(runs) + ","
  {
    var n := |runs| - 1;
    if n > 0 {
      WrittenIsRender(runs[..n]);
      RenderAppend(runs[..n], runs[n]);
      assert runs == runs[..n] + [runs[n]];
    } else {
      assert AllWritten(runs[..n]) == [];
    }
  }

  lemma {:induction false} RenderAppend(a: seq<Run>, r: Run)
    requires a != []
    ensures Render(a + [r]) == Render(a) + "," + Show(r)
  {
    var all := a + [r];
    if |a| == 1 {
      assert all[1..] == [r];
    } else {
      var more := Render(a[1..]);
      calc {
        Render(all);
        Show(a[0]) + "," + Render(all[1..]);
        { assert all[1..] == a[1..] + [r]; RenderAppend(a[1..], r); }
        Show(a[0]) + "," + (more + "," + Show(r));
        (Show(a[0]) + "," + more) + "," + Show(r);
        Render(a) + "," + Show(r);
      }
    }
  }

  /** A count has at most as many digits as its value. */
  lemma {:induction false} DigitsShort(n: nat)
    requires n >= 1
    ensures |Digits(n)| <= n
  {
    if n >= 10 { DigitsShort(n / 10); }
  }

  /** Five bytes per job hold everything the outer loop writes. */
  lemma {:induction false} WrittenFits(runs: seq<Run>)
    requires forall i :: 0 <= i < |runs| ==> runs[i].n >= 1
    ensures |AllWritten(runs)| <= 5 * Total(runs)
  {
    if runs != [] {
      var n := |runs| - 1;
      WrittenFits(runs[..n]);
      DigitsShort(runs[n].n);
      TotalAppend(runs[..n], runs[n]);
      assert runs == runs[..n] + [runs[n]];
    }
  }

  lemma {:induction false} TotalAppend(a: seq<Run>, r: Run)
    ensures Total(a + [r]) == Total(a) + r.n
  {
    if a == [] {
      assert (a + [r])[1..] == [];
    } else {
      assert (a + [r])[1..] == a[1..] + [r];
      TotalAppend(a[1..], r);
    }
  }

  /** Everything written for a string, with the last comma, fits in five bytes per character. */
  lemma CondensedFits(s: string)
    ensures |AllWritten(Runs(s))| <= 5 * |s|
  {
    RunsAreMaximal(s);
    ExpandRuns(s);
    WrittenFits(Runs(s));
  }

  /** The inner loop: the end of the run that starts at `start`. */
  method RunEnd(rstr: string, start: nat) returns (nr: nat)
    requires start < |rstr|
    ensures nr == RunLength(rstr[start..], 1)
  {
    nr := 1;
    while start + nr < |rstr| && rstr[start + nr - 1] == rstr[start + nr]
      invariant 1 <= nr <= |rstr| - start
      invariant RunLength(rstr[start..], 1) == RunLength(rstr[start..], nr)
    {
      nr := nr + 1;
    }
  }

  lemma {:induction false} NextRun(rstr: string, i: nat, seen: seq<Run>, nr: nat)
    requires i < |rstr| && seen + Runs(rstr[i..]) == Runs(rstr) && nr == RunLength(rstr[i..], 1)
    ensures i + nr <= |rstr| && (seen + [Run(rstr[i], nr)]) + Runs(rstr[i + nr..]) == Runs(rstr)
    ensures AllWritten(seen + [Run(rstr[i], nr)]) == AllWritten(seen) + Written(Run(rstr[i], nr))
  {
    var r := Run(rstr[i], nr);
    FirstRun(rstr[i..]);
    assert rstr[i..][nr..] == rstr[i + nr..];
    assert (seen + [r])[..|seen|] == seen;
  }

  /** The format by example. */
  lemma CondensedExample()
    ensures Render(Runs("PPR")) == "P(2),R(1)"
  {
    var a, b := Run('P', 2), Run('R', 1);
    assert RunLength("PPR", 1) == RunLength("PPR", 2) == 2;
    assert RunLength("R", 1) == 1;
    assert "PPR"[2..] == "R" && "R"[1..] == "";
    assert Runs("R") == [b] && Runs("PPR") == [a, b];
    assert [a, b][1..] == [b];
  }

  /** update_condensed_str */
  method Condense(rstr: string) returns (out: string)
    ensures out == Render(Runs(rstr)) && Decode(out) == Some(rstr)
    ensures |out| <= |AllWritten(Runs(rstr))| <= 5 * |rstr|
  {
    out := [];
    assert rstr[0..] == rstr;
    var i := 0;
    ghost var seen: seq<Run> := [];
    while i < |rstr|
      invariant 0 <= i <= |rstr|
      invariant out == AllWritten(seen) && seen + Runs(rstr[i..]) == Runs(rstr)
    {
      var nr := RunEnd(rstr, i);
      out := out + ([rstr[i]] + "(" + Digits(nr) + ")" + ",");
      NextRun(rstr, i, seen, nr);
      seen := seen + [Run(rstr[i], nr)];
      i := i + nr;
    }
    assert seen == Runs(rstr);
    CondensedFits(rstr);
    if rstr != [] {
      WrittenIsRender(seen);
      out := out[..|out| - 1];
    }
    CondensedRoundTrip(rstr);
  }
}
