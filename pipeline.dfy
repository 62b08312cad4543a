/**
 * The command `os_readbinlog` runs on one binary log:
 *
 *   <decoder> <file> | grep end_log_pos | egrep GTID | tail -1
 *                    | awk -F"GTID" '{print $2}' | awk '{print $1}'
 *
 * Each stage reads a text stream line by line and prints lines, each followed
 * by a newline. The decoder's output is the input text; the stage functions
 * below are stream to stream, and Extract composes them in pipe order.
 */
module Pipeline {
  import opened Wrappers
  import opened Text

  const EndLogPos := "end_log_pos"
  const GtidMarker := "GTID"

  /** The lines `grep pat` keeps, in their original order. */
  function Grep(lines: seq<string>, pat: string): (r: seq<string>)
    ensures |r| <= |lines|
    ensures forall i :: 0 <= i < |r| ==> Contains(r[i], pat)
    decreases |lines|
  {
    if |lines| == 0 then []
    else
      var init := lines[..|lines| - 1];
      var last := lines[|lines| - 1];
      assert lines == init + [last];
      Grep(init, pat) + (if Contains(last, pat) then [last] else [])
  }

  /** grep keeps a single line exactly when it contains the pattern. */
  lemma GrepOne(l: string, pat: string)
    ensures Grep([l], pat) == if Contains(l, pat) then [l] else []
  {
    assert [l][..0] == [];
  }

  /**
   * grep works line by line: on two pieces of input it prints what it prints
   * for the first, then what it prints for the second, so every matching line
   * is kept, in input order and with repeats.
   */
  lemma {:induction false} GrepAppend(a: seq<string>, b: seq<string>, pat: string)
    ensures Grep(a + b, pat) == Grep(a, pat) + Grep(b, pat)
    decreases |b|
  {
    if |b| == 0 {
      assert a + b == a;
    } else {
      var init := b[..|b| - 1];
      var last := b[|b| - 1];
      assert (a + b)[..|a + b| - 1] == a + init;
      assert (a + b)[|a + b| - 1] == last;
      GrepAppend(a, init, pat);
    }
  }

  /** grep on a line appended to its input. */
  lemma GrepSnoc(init: seq<string>, last: string, pat: string)
    ensures Grep(init + [last], pat) == Grep(init, pat) + if Contains(last, pat) then [last] else []
  {
    assert (init + [last])[..|init|] == init;
  }

  /** grep keeps exactly the lines of its input that contain the pattern. */
  lemma {:induction false} GrepMembers(lines: seq<string>, pat: string)
    ensures forall l :: l in Grep(lines, pat) <==> l in lines && Contains(l, pat)
    decreases |lines|
  {
    if |lines| > 0 {
      var init, last := lines[..|lines| - 1], lines[|lines| - 1];
      assert lines == init + [last];
      GrepSnoc(init, last, pat);
      GrepMembers(init, pat);
    }
  }

  /** The lines `tail -1` keeps: the last one, if any. */
  function Tail1(lines: seq<string>): (r: seq<string>)
    ensures |r| <= 1 && (|r| == 0 <==> |lines| == 0)
    ensures |r| == 1 ==> r[0] == lines[|lines| - 1]
  {
    if |lines| == 0 then [] else [lines[|lines| - 1]]
  }

  // Each stage as a filter from text stream to text stream.

  /** `grep pat`: print the input lines that contain `pat`. */
  function GrepStage(t: string, pat: string): string
  {
    Unlines(Grep(Lines(t), pat))
  }

  /**
   * `tail -1`: print the last input line. Read on its own this stage adds a
   * newline after an unterminated last line, which the real tail does not; in
   * the pipeline its input is grep's output, whose lines always end in a
   * newline, so the two agree there.
   */
  function TailStage(t: string): string
  {
    Unlines(Tail1(Lines(t)))
  }

  /** `awk -F sep '{print $n}'`: one output line per input line, the n-th field of each. */
  function AwkFieldStage(t: string, sep: string, n: nat): (r: string)
    requires |sep| > 0 && n >= 1
    ensures |r| == 0 <==> |Lines(t)| == 0
    ensures |r| > 0 ==> r[|r| - 1] == '\n'
  {
    var ls := Lines(t);
    var fs := seq(|ls|, i requires 0 <= i < |ls| => Field(ls[i], sep, n));
    UnlinesTerminated(fs);
    Unlines(fs)
  }

  /** `awk '{print $1}'`: one output line per input line, the first word of each. */
  function AwkTokenStage(t: string): (r: string)
    ensures |r| == 0 <==> |Lines(t)| == 0
    ensures |r| > 0 ==> r[|r| - 1] == '\n'
  {
    var ls := Lines(t);
    var ws := seq(|ls|, i requires 0 <= i < |ls| => FirstToken(ls[i]));
    UnlinesTerminated(ws);
    Unlines(ws)
  }

  /** What the whole pipeline prints for the decoder output `decoded`. */
  function Extract(decoded: string): (r: string)
    ensures |r| == 0 || r[|r| - 1] == '\n'
  {
    var s1 := GrepStage(decoded, EndLogPos);
    var s2 := GrepStage(s1, GtidMarker);
    var s3 := TailStage(s2);
    var s4 := AwkFieldStage(s3, GtidMarker, 2);
    AwkTokenStage(s4)
  }

  /** A line containing both patterns. */
  predicate HasBoth(l: string, a: string, b: string)
  {
    Contains(l, a) && Contains(l, b)
  }

  /** The position of the last line containing both patterns, if any. */
  function LastWithBoth(lines: seq<string>, a: string, b: string): (r: Option<nat>)
    ensures r.Some? ==> r.value < |lines| && HasBoth(lines[r.value], a, b)
    ensures r.Some? ==> forall j :: r.value < j < |lines| ==> !HasBoth(lines[j], a, b)
    ensures r.None? ==> forall j :: 0 <= j < |lines| ==> !HasBoth(lines[j], a, b)
    decreases |lines|
  {
    if |lines| == 0 then None
    else if HasBoth(lines[|lines| - 1], a, b) then Some(|lines| - 1)
    else
      var init := lines[..|lines| - 1];
      assert forall j :: 0 <= j < |init| ==> init[j] == lines[j];
      LastWithBoth(init, a, b)
  }

  /** A GTID event line: a decoded event line (both grep stages keep it) that mentions a GTID. */
  predicate IsGtidEvent(l: string)
  {
    HasBoth(l, EndLogPos, GtidMarker)
  }

  /** The position of the last GTID event line, if any. */
  function LastGtidEvent(lines: seq<string>): (r: Option<nat>)
    ensures r.Some? ==> r.value < |lines| && IsGtidEvent(lines[r.value])
    ensures r.Some? ==> forall j :: r.value < j < |lines| ==> !IsGtidEvent(lines[j])
    ensures r.None? ==> forall j :: 0 <= j < |lines| ==> !IsGtidEvent(lines[j])
  {
    LastWithBoth(lines, EndLogPos, GtidMarker)
  }

  /** grep keeps only lines of its input, so its output is newline-free when its input is. */
  lemma GrepNewlineFree(lines: seq<string>, pat: string)
    requires NewlineFree(lines)
    ensures NewlineFree(Grep(lines, pat))
  {
    var r := Grep(lines, pat);
    GrepMembers(lines, pat);
    forall i | 0 <= i < |r| ensures '\n' !in r[i] {
      assert r[i] in lines;
    }
  }

  /** The last line with both patterns, once the input has a last line. */
  lemma LastWithBothSnoc(lines: seq<string>, a: string, b: string)
    requires |lines| > 0
    ensures LastWithBoth(lines, a, b) ==
      if HasBoth(lines[|lines| - 1], a, b) then Some(|lines| - 1)
      else LastWithBoth(lines[..|lines| - 1], a, b)
  {
  }

  /** `tail -1` of two pieces of input. */
  lemma Tail1Append(x: seq<string>, y: seq<string>)
    ensures Tail1(x + y) == if |y| > 0 then Tail1(y) else Tail1(x)
  {
    if |y| == 0 {
      assert x + y == x;
    }
  }

  /** Both greps on one line keep it exactly when it has both patterns. */
  lemma TwoGrepsOne(last: string, a: string, b: string)
    ensures Grep(Grep([last], a), b) == if HasBoth(last, a, b) then [last] else []
  {
    GrepOne(last, a);
    if Contains(last, a) {
      GrepOne(last, b);
    } else {
      assert Grep([], b) == [];
    }
  }

  /** `grep a | grep b | tail -1` keeps exactly the last line containing both patterns. */
  lemma {:induction false} LastOfTwoGreps(lines: seq<string>, a: string, b: string)
    ensures Tail1(Grep(Grep(lines, a), b)) ==
      match LastWithBoth(lines, a, b)
      case None => []
      case Some(k) => [lines[k]]
    decreases |lines|
  {
    if |lines| > 0 {
      var init := lines[..|lines| - 1];
      LastOfTwoGreps(init, a, b);
      TwoGrepsSnoc(lines, a, b);
      LastWithBothSnoc(lines, a, b);
      LastOfSnoc(lines, Tail1(Grep(Grep(lines, a), b)), Tail1(Grep(Grep(init, a), b)),
        LastWithBoth(lines, a, b), LastWithBoth(init, a, b), HasBoth(lines[|lines| - 1], a, b));
    }
  }

  /**
   * The step of the induction above, on plain values: the kept line `t` and
   * the found position `w` follow the same rule when the input gains a last line.
   */
  lemma LastOfSnoc(lines: seq<string>, t: seq<string>, tInit: seq<string>,
                   w: Option<nat>, wInit: Option<nat>, hit: bool)
    requires |lines| > 0
    requires wInit.Some? ==> wInit.value < |lines| - 1
    requires t == if hit then [lines[|lines| - 1]] else tInit
    requires w == if hit then Some(|lines| - 1) else wInit
    requires tInit == match wInit case None => [] case Some(k) => [lines[..|lines| - 1][k]]
    ensures t == match w case None => [] case Some(k) => [lines[k]]
  {
    if !hit && wInit.Some? {
      assert lines[..|lines| - 1][wInit.value] == lines[wInit.value];
    }
  }

  /** `grep a | grep b | tail -1` once the input has a last line. */
  lemma TwoGrepsSnoc(lines: seq<string>, a: string, b: string)
    requires |lines| > 0
    ensures var init, last := lines[..|lines| - 1], lines[|lines| - 1];
      Tail1(Grep(Grep(lines, a), b)) ==
      if HasBoth(last, a, b) then [last] else Tail1(Grep(Grep(init, a), b))
  {
    var init, last := lines[..|lines| - 1], lines[|lines| - 1];
    assert lines == init + [last];
    GrepAppend(init, [last], a);
    GrepAppend(Grep(init, a), Grep([last], a), b);
    TwoGrepsOne(last, a, b);
    Tail1Append(Grep(Grep(init, a), b), Grep(Grep([last], a), b));
  }

  /** `grep end_log_pos | egrep GTID | tail -1` keeps exactly the last GTID event line. */
  lemma LastOfBothGreps(lines: seq<string>)
    ensures Tail1(Grep(Grep(lines, EndLogPos), GtidMarker)) ==
      match LastGtidEvent(lines)
      case None => []
      case Some(k) => [lines[k]]
  {
    LastOfTwoGreps(lines, EndLogPos, GtidMarker);
  }

  /** A grep stage fed printed newline-free lines prints the lines grep keeps. */
  lemma GrepStageOfLines(ls: seq<string>, pat: string)
    requires NewlineFree(ls)
    ensures NewlineFree(Grep(ls, pat))
    ensures GrepStage(Unlines(ls), pat) == Unlines(Grep(ls, pat))
  {
    LinesUnlines(ls);
    GrepNewlineFree(ls, pat);
  }

  /** A tail stage fed printed newline-free lines prints the last of them, or nothing. */
  lemma TailStageOfLines(ls: seq<string>)
    requires NewlineFree(ls)
    ensures TailStage(Unlines(ls)) == Unlines(Tail1(ls))
  {
    LinesUnlines(ls);
  }

  /** The two awk stages fed at most one printed line. */
  lemma AwkStagesOfLine(line: string)
    requires '\n' !in line
    ensures AwkTokenStage(AwkFieldStage(Unlines([line]), GtidMarker, 2)) ==
      FirstToken(Field(line, GtidMarker, 2)) + "\n"
  {
    assert NewlineFree([line]);
    LinesUnlines([line]);
    var f := Field(line, GtidMarker, 2);
    FieldsNewlineFree(line, GtidMarker);
    assert NewlineFree([f]);
    LinesUnlines([f]);
    assert seq(1, i requires 0 <= i < 1 => Field([line][i], GtidMarker, 2)) == [f];
    assert AwkFieldStage(Unlines([line]), GtidMarker, 2) == Unlines([f]);
    assert seq(1, i requires 0 <= i < 1 => FirstToken([f][i])) == [FirstToken(f)];
  }

  /** `awk -F sep '{print $n}'` prints one line per input line: the n-th field of each. */
  lemma AwkFieldStageLines(t: string, sep: string, n: nat)
    requires |sep| > 0 && n >= 1
    ensures Lines(AwkFieldStage(t, sep, n)) ==
      seq(|Lines(t)|, i requires 0 <= i < |Lines(t)| => Field(Lines(t)[i], sep, n))
  {
    var ls := Lines(t);
    var fs := seq(|ls|, i requires 0 <= i < |ls| => Field(ls[i], sep, n));
    LinesNewlineFree(t);
    forall i | 0 <= i < |fs|
      ensures '\n' !in fs[i]
    {
      FieldsNewlineFree(ls[i], sep);
    }
    LinesUnlines(fs);
  }

  /** `awk '{print $1}'` prints one line per input line: the first word of each. */
  lemma AwkTokenStageLines(t: string)
    ensures Lines(AwkTokenStage(t)) ==
      seq(|Lines(t)|, i requires 0 <= i < |Lines(t)| => FirstToken(Lines(t)[i]))
  {
    var ls := Lines(t);
    var ws := seq(|ls|, i requires 0 <= i < |ls| => FirstToken(ls[i]));
    assert IsBlank('\n');
    forall i | 0 <= i < |ws|
      ensures '\n' !in ws[i]
    {
      var w := ws[i];
      assert forall j :: 0 <= j < |w| ==> !IsBlank(w[j]);
    }
    LinesUnlines(ws);
  }

  /** The two awk stages print nothing when fed nothing. */
  lemma AwkStagesOfNothing()
    ensures AwkTokenStage(AwkFieldStage("", GtidMarker, 2)) == ""
  {
  }

  /**
   * The pipeline's output in one formula: nothing when no line is a GTID event,
   * and otherwise the first blank-delimited token after the first "GTID" of the
   * last GTID event line, followed by awk's newline.
   */
  lemma ExtractLastEvent(decoded: string)
    ensures Extract(decoded) ==
      match LastGtidEvent(Lines(decoded))
      case None => ""
      case Some(k) => FirstToken(Field(Lines(decoded)[k], GtidMarker, 2)) + "\n"
  {
    var ls := Lines(decoded);
    var g1 := Grep(ls, EndLogPos);
    LinesNewlineFree(decoded);
    GrepNewlineFree(ls, EndLogPos);
    var g2 := Grep(g1, GtidMarker);
    GrepStageOfLines(g1, GtidMarker);
    assert GrepStage(GrepStage(decoded, EndLogPos), GtidMarker) == Unlines(g2);
    LinesUnlines(g2);
    var g3 := Tail1(g2);
    assert TailStage(Unlines(g2)) == Unlines(g3);
    LastOfBothGreps(ls);
    match LastGtidEvent(ls)
    case None =>
      assert Unlines(g3) == "";
      AwkStagesOfNothing();
    case Some(k) =>
      assert g3 == [ls[k]];
      AwkStagesOfLine(ls[k]);
  }

  /** The pipeline prints nothing exactly when no decoded line holds both "end_log_pos" and "GTID". */
  lemma ExtractEmptyIff(decoded: string)
    ensures Extract(decoded) == "" <==>
      forall j :: 0 <= j < |Lines(decoded)| ==> !IsGtidEvent(Lines(decoded)[j])
  {
    ExtractLastEvent(decoded);
  }

  /** The output is empty, or one blank-free token (possibly empty) and a newline. */
  lemma ExtractShape(decoded: string)
    ensures var r := Extract(decoded);
      r == "" || (r[|r| - 1] == '\n' && forall i :: 0 <= i < |r| - 1 ==> !IsBlank(r[i]))
  {
    ExtractLastEvent(decoded);
    match LastGtidEvent(Lines(decoded))
    case None =>
    case Some(k) =>
      TokenLine(FirstToken(Field(Lines(decoded)[k], GtidMarker, 2)));
  }

  /** A blank-free token printed as a line. */
  lemma TokenLine(t: string)
    requires forall i :: 0 <= i < |t| ==> !IsBlank(t[i])
    ensures var r := t + "\n";
      r[|r| - 1] == '\n' && forall i :: 0 <= i < |r| - 1 ==> !IsBlank(r[i])
  {
    var r := t + "\n";
    assert forall i :: 0 <= i < |t| ==> r[i] == t[i];
  }

  /**
   * A GTID event line with nothing but blanks after its first "GTID" makes the
   * pipeline print a bare newline, which is not the empty output.
   */
  lemma ExtractBareNewline(decoded: string, k: nat)
    requires LastGtidEvent(Lines(decoded)) == Some(k)
    requires forall i :: 0 <= i < |Field(Lines(decoded)[k], GtidMarker, 2)| ==>
      IsBlank(Field(Lines(decoded)[k], GtidMarker, 2)[i])
    ensures Extract(decoded) == "\n"
  {
    ExtractLastEvent(decoded);
  }

  /** Only the last GTID event line matters: two outputs that end on the same one extract alike. */
  lemma ExtractDependsOnLastEvent(d1: string, d2: string, k1: nat, k2: nat)
    requires LastGtidEvent(Lines(d1)) == Some(k1) && LastGtidEvent(Lines(d2)) == Some(k2)
    requires Lines(d1)[k1] == Lines(d2)[k2]
    ensures Extract(d1) == Extract(d2)
  {
    ExtractLastEvent(d1);
    ExtractLastEvent(d2);
  }
}
