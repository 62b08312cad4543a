/**
 * Text primitives of the shell tools and of Python used by sacromonte:
 * substring search, splitting a stream into lines and printing lines back,
 * awk's field splitting on a literal separator, awk's default (blank)
 * field splitting, and Python's line iteration with rstrip('\n').
 */
module Text {
  import opened Wrappers

  /** `pat` occurs in `s` starting at position `i`. */
  predicate IsAt(s: string, pat: string, i: nat)
  {
    i + |pat| <= |s| && s[i..i + |pat|] == pat
  }

  /** The first occurrence of `pat` in `s` at or after `from`. */
  function FindFrom(s: string, pat: string, from: nat): (r: Option<nat>)
    ensures r.Some? ==> from <= r.value && IsAt(s, pat, r.value)
    ensures r.Some? ==> forall j: nat :: from <= j < r.value ==> !IsAt(s, pat, j)
    ensures r.None? ==> forall j: nat :: from <= j ==> !IsAt(s, pat, j)
    decreases |s| - from
  {
    if from + |pat| > |s| then None
    else if s[from..from + |pat|] == pat then Some(from)
    else FindFrom(s, pat, from + 1)
  }

  /** The leftmost occurrence of `pat` in `s`, if any. */
  function Find(s: string, pat: string): (r: Option<nat>)
    ensures r.Some? ==> IsAt(s, pat, r.value) && forall j: nat :: j < r.value ==> !IsAt(s, pat, j)
    ensures r.None? ==> forall j: nat :: !IsAt(s, pat, j)
  {
    FindFrom(s, pat, 0)
  }

  /** `pat` is a substring of `s` (what `grep pat` tests of a line). */
  predicate Contains(s: string, pat: string)
  {
    Find(s, pat).Some?
  }

  /** A line contains a pattern exactly when the pattern occurs somewhere in it. */
  lemma ContainsIffOccurs(s: string, pat: string)
    ensures Contains(s, pat) <==> exists i: nat :: IsAt(s, pat, i)
  {
    if Contains(s, pat) {
      assert IsAt(s, pat, Find(s, pat).value);
    }
  }

  /** The position of the first `c` in `s`, or |s| when there is none. */
  function IndexOf(s: string, c: char): (k: nat)
    ensures k <= |s|
    ensures forall j :: 0 <= j < k ==> s[j] != c
    ensures k < |s| ==> s[k] == c
  {
    IndexOfFrom(s, c, 0)
  }

  /** The position of the first `c` in `s` at or after `i`, or |s| when there is none. */
  function IndexOfFrom(s: string, c: char, i: nat): (k: nat)
    requires i <= |s|
    ensures i <= k <= |s|
    ensures forall j :: i <= j < k ==> s[j] != c
    ensures k < |s| ==> s[k] == c
    decreases |s| - i
  {
    if i == |s| || s[i] == c then i else IndexOfFrom(s, c, i + 1)
  }

  // ---------------------------------------------------------------------
  // Line streams: how grep, tail and awk read their input and print output.
  // ---------------------------------------------------------------------

  /** Every string of `ls` is free of newlines. */
  predicate NewlineFree(ls: seq<string>)
  {
    forall i :: 0 <= i < |ls| ==> '\n' !in ls[i]
  }

  /**
   * The lines of a text stream: the pieces between newlines, where a final
   * piece is a line even without a terminating newline, and a stream that
   * ends in a newline has no empty line after it.
   */
  function Lines(t: string): seq<string>
    decreases |t|
  {
    if |t| == 0 then []
    else if IndexOf(t, '\n') == |t| then [t]
    else [t[..IndexOf(t, '\n')]] + Lines(t[IndexOf(t, '\n') + 1..])
  }

  /** Printing each line followed by a newline (awk's `print`, grep's and tail's output). */
  function Unlines(ls: seq<string>): (t: string)
    ensures |ls| == 0 <==> |t| == 0
    decreases |ls|
  {
    if |ls| == 0 then [] else ls[0] + "\n" + Unlines(ls[1..])
  }

  /** Printed lines end with a newline. */
  lemma {:induction false} UnlinesTerminated(ls: seq<string>)
    ensures var t := Unlines(ls); |t| > 0 ==> t[|t| - 1] == '\n'
    decreases |ls|
  {
    if |ls| > 0 {
      var rest := Unlines(ls[1..]);
      UnlinesTerminated(ls[1..]);
      assert Unlines(ls) == (ls[0] + "\n") + rest;
    }
  }

  /** Printing a first line, then the rest. */
  lemma UnlinesCons(x: string, ls: seq<string>)
    ensures Unlines([x] + ls) == x + "\n" + Unlines(ls)
  {
    assert ([x] + ls)[0] == x && ([x] + ls)[1..] == ls;
  }

  /** A stream cut at a newline is the part before it, the newline, and the part after it. */
  lemma CutAtNewline(t: string, k: nat)
    requires k < |t| && t[k] == '\n'
    ensures t == t[..k] + "\n" + t[k + 1..]
  {
  }

  /** In a printed line followed by more text, the first newline is the one printed after the line. */
  lemma FirstNewlineAfter(x: string, y: string)
    requires '\n' !in x
    ensures IndexOf(x + "\n" + y, '\n') == |x|
    ensures (x + "\n" + y)[..|x|] == x && (x + "\n" + y)[|x| + 1..] == y
  {
    var t := x + "\n" + y;
    assert forall j :: 0 <= j < |x| ==> t[j] == x[j];
    IndexOfIs(t, '\n', |x|);
  }

  /** The first newline of `s` does not occur before position IndexOf(s, '\n'). */
  lemma NoNewlineBefore(s: string)
    ensures '\n' !in s[..IndexOf(s, '\n')]
  {
    var k := IndexOf(s, '\n');
    assert forall j :: 0 <= j < k ==> s[..k][j] == s[j];
  }

  /** A stream whose first line is terminated: that line, then the lines of the rest. */
  lemma LinesOfTerminated(t: string)
    requires IndexOf(t, '\n') < |t|
    ensures Lines(t) == [t[..IndexOf(t, '\n')]] + Lines(t[IndexOf(t, '\n') + 1..])
  {
  }

  /** A non-empty stream without a newline is a single line. */
  lemma LinesOfUnterminated(t: string)
    requires |t| > 0 && IndexOf(t, '\n') == |t|
    ensures Lines(t) == [t]
  {
  }

  /** The position of the first `c` is determined by the characters before it and at it. */
  lemma IndexOfIs(s: string, c: char, k: nat)
    requires k <= |s|
    requires forall j :: 0 <= j < k ==> s[j] != c
    requires k < |s| ==> s[k] == c
    ensures IndexOf(s, c) == k
  {
    IndexOfFromIs(s, c, 0, k);
  }

  /** The same, for the search that starts at `i`. */
  lemma {:induction false} IndexOfFromIs(s: string, c: char, i: nat, k: nat)
    requires i <= k <= |s|
    requires forall j :: i <= j < k ==> s[j] != c
    requires k < |s| ==> s[k] == c
    ensures IndexOfFrom(s, c, i) == k
    decreases k - i
  {
    if i < k {
      IndexOfFromIs(s, c, i + 1, k);
    }
  }

  /** Adding a newline-free first line keeps a list of lines newline-free. */
  lemma NewlineFreeCons(x: string, ls: seq<string>)
    requires '\n' !in x && NewlineFree(ls)
    ensures NewlineFree([x] + ls)
  {
    forall i | 0 <= i < |[x] + ls| ensures '\n' !in ([x] + ls)[i] {
      if i > 0 {
        assert ([x] + ls)[i] == ls[i - 1];
      }
    }
  }

  /** Reading back printed lines gives the same lines. */
  lemma {:induction false} LinesUnlines(ls: seq<string>)
    requires NewlineFree(ls)
    ensures Lines(Unlines(ls)) == ls
    decreases |ls|
  {
    if |ls| > 0 {
      var x, rest := ls[0], ls[1..];
      assert ls == [x] + rest;
      assert NewlineFree(rest) by {
        forall i | 0 <= i < |rest| ensures '\n' !in rest[i] {
          assert rest[i] == ls[i + 1];
        }
      }
      UnlinesCons(x, rest);
      FirstNewlineAfter(x, Unlines(rest));
      LinesOfTerminated(x + "\n" + Unlines(rest));
      LinesUnlines(rest);
    }
  }

  /** The lines of a stream are free of newlines. */
  lemma {:induction false} LinesNewlineFree(t: string)
    ensures NewlineFree(Lines(t))
    decreases |t|
  {
    if |t| > 0 {
      var k := IndexOf(t, '\n');
      if k < |t| {
        LinesOfTerminated(t);
        LinesNewlineFree(t[k + 1..]);
        NoNewlineBefore(t);
        NewlineFreeCons(t[..k], Lines(t[k + 1..]));
      } else {
        LinesOfUnterminated(t);
        NoNewlineBefore(t);
        assert t[..k] == t;
      }
    }
  }

  /** A final piece without a terminating newline is a line, just as if it were terminated. */
  lemma {:induction false} UnterminatedLine(t: string)
    requires |t| > 0 && t[|t| - 1] != '\n'
    ensures Lines(t) == Lines(t + "\n")
    decreases |t|
  {
    var u := t + "\n";
    var k := IndexOf(t, '\n');
    NoNewlineBefore(t);
    if k == |t| {
      assert t[..k] == t;
      FirstNewlineAfter(t, "");
      assert u == t + "\n" + "";
      LinesOfUnterminated(t);
      LinesOfTerminated(u);
    } else {
      var rest := t[k + 1..];
      assert |rest| > 0 && rest[|rest| - 1] == t[|t| - 1];
      CutAtNewline(t, k);
      assert u == t[..k] + "\n" + (rest + "\n");
      FirstNewlineAfter(t[..k], rest + "\n");
      LinesOfTerminated(t);
      LinesOfTerminated(u);
      UnterminatedLine(rest);
    }
  }

  /** A stream that is empty or ends in a newline is printed back unchanged from its lines. */
  lemma {:induction false} UnlinesLines(t: string)
    requires |t| == 0 || t[|t| - 1] == '\n'
    ensures Unlines(Lines(t)) == t
    decreases |t|
  {
    if |t| > 0 {
      var k := IndexOf(t, '\n');
      var rest := t[k + 1..];
      LinesOfTerminated(t);
      UnlinesLines(rest);
      UnlinesCons(t[..k], Lines(rest));
      CutAtNewline(t, k);
    }
  }

  // ---------------------------------------------------------------------
  // awk -F"<sep>": fields separated by a literal, non-empty separator.
  // ---------------------------------------------------------------------

  /** The fields of a record split at every (leftmost, non-overlapping) occurrence of `sep`. */
  function Fields(s: string, sep: string): (fs: seq<string>)
    requires |sep| > 0
    ensures |fs| >= 1
    ensures forall i :: 0 <= i < |fs| ==> !Contains(fs[i], sep)
    decreases |s|
  {
    match Find(s, sep)
    case None => [s]
    case Some(k) =>
      assert forall j: nat :: IsAt(s[..k], sep, j) ==> IsAt(s, sep, j);
      [s[..k]] + Fields(s[k + |sep|..], sep)
  }

  /** Joining fields back with the separator. */
  function Join(fs: seq<string>, sep: string): string
    requires |fs| >= 1
    decreases |fs|
  {
    if |fs| == 1 then fs[0] else fs[0] + sep + Join(fs[1..], sep)
  }

  /** Splitting loses nothing: joining the fields with the separator gives the record back. */
  lemma {:induction false} JoinFields(s: string, sep: string)
    requires |sep| > 0
    ensures Join(Fields(s, sep), sep) == s
    decreases |s|
  {
    match Find(s, sep)
    case None =>
    case Some(k) =>
      var fs := Fields(s, sep);
      assert fs[0] == s[..k];
      assert fs[1..] == Fields(s[k + |sep|..], sep);
      JoinFields(s[k + |sep|..], sep);
      assert s == s[..k] + s[k..k + |sep|] + s[k + |sep|..];
  }

  /** awk's `$n` (n >= 1) of a record split on `sep`: the empty string when there is no such field. */
  function Field(s: string, sep: string, n: nat): string
    requires |sep| > 0 && n >= 1
  {
    var fs := Fields(s, sep);
    if n <= |fs| then fs[n - 1] else ""
  }

  /**
   * `$2` of a record that contains `sep`: the text after its first occurrence,
   * up to the next occurrence or to the end of the record.
   */
  lemma SecondField(s: string, sep: string, k: nat)
    requires |sep| > 0
    requires Find(s, sep) == Some(k)
    ensures var f := Field(s, sep, 2);
      !Contains(f, sep) && k + |sep| + |f| <= |s| && s[k + |sep|..k + |sep| + |f|] == f &&
      (k + |sep| + |f| == |s| || IsAt(s, sep, k + |sep| + |f|))
  {
    var p := k + |sep|;
    var rest := s[p..];
    FieldsOfFound(s, sep, k);
    FirstField(rest, sep);
    var f := Fields(rest, sep)[0];
    var fs := Fields(s, sep);
    assert fs == [s[..k]] + Fields(rest, sep);
    assert fs[1] == f;
    assert Field(s, sep, 2) == f;
    FieldInSuffix(s, sep, p, f);
  }

  /** A record with a separator at `k`: the text before it, then the fields of the rest. */
  lemma FieldsOfFound(s: string, sep: string, k: nat)
    requires |sep| > 0 && Find(s, sep) == Some(k)
    ensures Fields(s, sep) == [s[..k]] + Fields(s[k + |sep|..], sep)
  {
  }

  /** The first field is a prefix of the record that ends at the first separator or at the end. */
  lemma FirstField(s: string, sep: string)
    requires |sep| > 0
    ensures var f := Fields(s, sep)[0];
      |f| <= |s| && s[..|f|] == f && (|f| == |s| || IsAt(s, sep, |f|))
  {
    match Find(s, sep)
    case None =>
    case Some(m) =>
      FieldsOfFound(s, sep, m);
  }

  /** A piece that starts the suffix of `s` at `p` stands in `s` at `p`. */
  lemma FieldInSuffix(s: string, sep: string, p: nat, f: string)
    requires p <= |s|
    requires |f| <= |s| - p && s[p..][..|f|] == f
    requires |f| == |s| - p || IsAt(s[p..], sep, |f|)
    ensures s[p..p + |f|] == f
    ensures p + |f| == |s| || IsAt(s, sep, p + |f|)
  {
    assert s[p..p + |f|] == s[p..][..|f|];
    if |f| < |s| - p {
      assert s[p + |f|..p + |f| + |sep|] == s[p..][|f|..|f| + |sep|];
    }
  }

  /** A field is a piece of its record, so a newline-free record has newline-free fields. */
  lemma {:induction false} FieldsNewlineFree(s: string, sep: string)
    requires |sep| > 0 && '\n' !in s
    ensures NewlineFree(Fields(s, sep))
    decreases |s|
  {
    match Find(s, sep)
    case None =>
    case Some(k) =>
      var rest := s[k + |sep|..];
      var fs := Fields(s, sep);
      assert fs == [s[..k]] + Fields(rest, sep);
      assert forall i :: 0 <= i < |rest| ==> rest[i] == s[k + |sep| + i];
      assert '\n' !in rest;
      assert '\n' !in s[..k] by {
        assert forall i :: 0 <= i < k ==> s[..k][i] == s[i];
      }
      FieldsNewlineFree(rest, sep);
      forall i | 0 <= i < |fs| ensures '\n' !in fs[i] {
        if i > 0 {
          assert fs[i] == Fields(rest, sep)[i - 1];
        }
      }
  }

  // ---------------------------------------------------------------------
  // awk's default field splitting: runs of blanks separate fields.
  // ---------------------------------------------------------------------

  /** The characters awk's default field separator skips. */
  predicate IsBlank(c: char)
  {
    c == ' ' || c == '\t' || c == '\n'
  }

  /** The record with its leading blanks removed. */
  function TrimLeft(s: string): (r: string)
    ensures |r| <= |s| && r == s[|s| - |r|..]
    ensures forall i :: 0 <= i < |s| - |r| ==> IsBlank(s[i])
    ensures |r| == 0 || !IsBlank(r[0])
  {
    s[BlankRun(s, 0)..]
  }

  /** The end of the run of blanks in `s` that starts at `i`. */
  function BlankRun(s: string, i: nat): (k: nat)
    requires i <= |s|
    ensures i <= k <= |s|
    ensures forall j :: i <= j < k ==> IsBlank(s[j])
    ensures k == |s| || !IsBlank(s[k])
    decreases |s| - i
  {
    if i == |s| || !IsBlank(s[i]) then i else BlankRun(s, i + 1)
  }

  /** The longest blank-free prefix. */
  function TakeWord(s: string): (w: string)
    ensures |w| <= |s| && w == s[..|w|]
    ensures forall i :: 0 <= i < |w| ==> !IsBlank(w[i])
    ensures |w| == |s| || IsBlank(s[|w|])
  {
    if |s| > 0 && !IsBlank(s[0]) then [s[0]] + TakeWord(s[1..]) else []
  }

  /**
   * `w` stands in `s` at `lead` after nothing but blanks, and ends at a blank
   * or at the end of `s`.
   */
  predicate IsWordAt(s: string, w: string, lead: nat)
  {
    lead + |w| <= |s| && s[lead..lead + |w|] == w &&
    (forall i :: 0 <= i < lead ==> IsBlank(s[i])) &&
    (lead + |w| == |s| || IsBlank(s[lead + |w|]))
  }

  /** The first word stands in the record after its leading blanks. */
  lemma FirstWordAt(s: string)
    ensures IsWordAt(s, TakeWord(TrimLeft(s)), |s| - |TrimLeft(s)|)
  {
    WordAfterBlanks(s, TrimLeft(s), TakeWord(TrimLeft(s)));
  }

  /** A blank-ended prefix `t` of a suffix `r` that follows only blanks is a word of `s`. */
  lemma WordAfterBlanks(s: string, r: string, t: string)
    requires |r| <= |s| && r == s[|s| - |r|..]
    requires forall i :: 0 <= i < |s| - |r| ==> IsBlank(s[i])
    requires |t| <= |r| && t == r[..|t|]
    requires |t| == |r| || IsBlank(r[|t|])
    ensures IsWordAt(s, t, |s| - |r|)
  {
    var lead := |s| - |r|;
    assert s[lead..lead + |t|] == t;
    if |t| < |r| {
      assert r[|t|] == s[lead + |t|];
    }
  }

  /** The first word is empty exactly when the record is all blanks. */
  lemma FirstWordEmpty(s: string)
    ensures |TakeWord(TrimLeft(s))| == 0 <==> forall i :: 0 <= i < |s| ==> IsBlank(s[i])
  {
    var r := TrimLeft(s);
    if |r| > 0 {
      assert r[0] == s[|s| - |r|];
    }
  }

  /** awk's `$1` with the default field separator. */
  function FirstToken(s: string): (t: string)
    ensures forall i :: 0 <= i < |t| ==> !IsBlank(t[i])
    ensures t == [] <==> forall i :: 0 <= i < |s| ==> IsBlank(s[i])
    ensures exists lead: nat :: IsWordAt(s, t, lead)
  {
    FirstWordAt(s);
    FirstWordEmpty(s);
    TakeWord(TrimLeft(s))
  }

  // ---------------------------------------------------------------------
  // Python: `for line in open(path)` and `line.rstrip('\n')`.
  // ---------------------------------------------------------------------

  /** The lines Python's file iteration yields: each keeps its newline, the last may have none. */
  function ReadLines(t: string): seq<string>
    decreases |t|
  {
    if |t| == 0 then []
    else if IndexOf(t, '\n') == |t| then [t]
    else [t[..IndexOf(t, '\n') + 1]] + ReadLines(t[IndexOf(t, '\n') + 1..])
  }

  /** Python yields a terminated first line with its newline, then the lines of the rest. */
  lemma ReadLinesOfTerminated(t: string)
    requires IndexOf(t, '\n') < |t|
    ensures ReadLines(t) == [t[..IndexOf(t, '\n') + 1]] + ReadLines(t[IndexOf(t, '\n') + 1..])
  {
  }

  /** Python yields as many lines as the stream has. */
  lemma {:induction false} ReadLinesCount(t: string)
    ensures |ReadLines(t)| == |Lines(t)|
    decreases |t|
  {
    if |t| > 0 && IndexOf(t, '\n') < |t| {
      LinesOfTerminated(t);
      ReadLinesOfTerminated(t);
      ReadLinesCount(t[IndexOf(t, '\n') + 1..]);
    }
  }


  /** Python's `s.rstrip('\n')`: every trailing newline removed. */
  function RStripNewlines(s: string): (r: string)
    ensures |r| <= |s| && r == s[..|r|]
    ensures forall i :: |r| <= i < |s| ==> s[i] == '\n'
    ensures |r| == 0 || r[|r| - 1] != '\n'
  {
    if |s| > 0 && s[|s| - 1] == '\n' then RStripNewlines(s[..|s| - 1]) else s
  }

  /** Concatenating the lines Python yields gives the file's text back. */
  lemma {:induction false} ReadLinesConcat(t: string)
    ensures Concat(ReadLines(t)) == t
    decreases |t|
  {
    if |t| > 0 {
      var k := IndexOf(t, '\n');
      if k < |t| {
        var u := t[k + 1..];
        ReadLinesOfTerminated(t);
        ReadLinesConcat(u);
        ConcatCons(t[..k + 1], ReadLines(u));
        CutAfter(t, k);
      } else {
        LastLineUnterminated(t);
        ConcatCons(t, []);
      }
    }
  }

  /** A stream is its text up to and including position `k`, then the rest. */
  lemma CutAfter(t: string, k: nat)
    requires k < |t|
    ensures t[..k + 1] + t[k + 1..] == t
  {
  }

  /** Writing a first line, then the rest. */
  lemma ConcatCons(x: string, ls: seq<string>)
    ensures Concat([x] + ls) == x + Concat(ls)
  {
    assert ([x] + ls)[1..] == ls;
  }

  /** The lines written one after another. */
  function Concat(ls: seq<string>): string
    decreases |ls|
  {
    if |ls| == 0 then [] else ls[0] + Concat(ls[1..])
  }

  /** Stripping the newlines from what Python yields gives exactly the stream's lines. */
  lemma {:induction false} ReadLinesStripped(t: string, i: nat)
    requires i < |Lines(t)|
    ensures i < |ReadLines(t)| && RStripNewlines(ReadLines(t)[i]) == Lines(t)[i]
    decreases |t|, 1
  {
    if IndexOf(t, '\n') == |t| {
      LastLineUnterminated(t);
    } else if i == 0 {
      StrippedFirstLine(t);
    } else {
      StrippedLaterLine(t, i);
    }
  }

  /** A later line: both readings continue with the rest of the stream. */
  lemma {:induction false} StrippedLaterLine(t: string, i: nat)
    requires IndexOf(t, '\n') < |t| && 0 < i < |Lines(t)|
    ensures i < |ReadLines(t)| && RStripNewlines(ReadLines(t)[i]) == Lines(t)[i]
    decreases |t|, 0
  {
    var u := t[IndexOf(t, '\n') + 1..];
    ShiftedLine(t, u, i);
    ReadLinesStripped(u, i - 1);
    StrippedShift(t, u, i);
  }

  /** The stripped line of the rest is the stripped line of the whole stream, one further. */
  lemma StrippedShift(t: string, u: string, i: nat)
    requires IndexOf(t, '\n') < |t| && u == t[IndexOf(t, '\n') + 1..] && 0 < i
    requires i - 1 < |Lines(u)| && i < |ReadLines(t)|
    requires ReadLines(t)[i] == ReadLines(u)[i - 1] && Lines(t)[i] == Lines(u)[i - 1]
    requires RStripNewlines(ReadLines(u)[i - 1]) == Lines(u)[i - 1]
    ensures RStripNewlines(ReadLines(t)[i]) == Lines(t)[i]
  {
  }

  /**
   * Python keeps each line's newline: every yielded line is the stream line
   * followed by exactly one newline, except an unterminated last line.
   */
  lemma {:induction false} ReadLinesKeepNewline(t: string, i: nat)
    requires i < |Lines(t)| && (i < |Lines(t)| - 1 || t[|t| - 1] == '\n')
    ensures i < |ReadLines(t)| && ReadLines(t)[i] == Lines(t)[i] + "\n"
    decreases |t|
  {
    ReadLinesCount(t);
    if IndexOf(t, '\n') == |t| {
      assert false;
    } else if i == 0 {
      FirstKeepsNewline(t);
    } else {
      var u := t[IndexOf(t, '\n') + 1..];
      ShiftedLine(t, u, i);
      LaterKeepsNewline(t, IndexOf(t, '\n'), u, i, |Lines(t)|, |Lines(u)|);
      ReadLinesKeepNewline(u, i - 1);
    }
  }

  /** The first terminated line is yielded with its newline. */
  lemma FirstKeepsNewline(t: string)
    requires IndexOf(t, '\n') < |t|
    ensures |Lines(t)| > 0 && |ReadLines(t)| > 0
    ensures ReadLines(t)[0] == Lines(t)[0] + "\n"
  {
    var k := IndexOf(t, '\n');
    LinesOfTerminated(t);
    ReadLinesOfTerminated(t);
    assert t[..k + 1] == t[..k] + "\n";
  }

  /** Past a terminated first line, a later line's terminated-ness carries over to the rest. */
  lemma LaterKeepsNewline(t: string, k: nat, u: string, i: nat, n: nat, m: nat)
    requires k < |t| && u == t[k + 1..] && 0 < i < n && m == n - 1
    requires |u| == 0 ==> m == 0
    requires i < n - 1 || t[|t| - 1] == '\n'
    ensures i - 1 < m - 1 || (|u| > 0 && u[|u| - 1] == '\n')
  {
    if i == n - 1 {
      assert u[|u| - 1] == t[|t| - 1];
    }
  }

  /** The first terminated line, stripped, is the first line. */
  lemma StrippedFirstLine(t: string)
    requires IndexOf(t, '\n') < |t|
    ensures |Lines(t)| > 0 && |ReadLines(t)| > 0
    ensures RStripNewlines(ReadLines(t)[0]) == Lines(t)[0]
  {
    var k := IndexOf(t, '\n');
    LinesOfTerminated(t);
    ReadLinesOfTerminated(t);
    var l := t[..k];
    assert forall j :: 0 <= j < |l| ==> l[j] == t[j];
    StripTerminatedLine(l);
    assert t[..k + 1] == l + "\n";
  }

  /** Past a terminated first line, both readings continue with the rest of the stream. */
  lemma ShiftedLine(t: string, u: string, i: nat)
    requires IndexOf(t, '\n') < |t| && u == t[IndexOf(t, '\n') + 1..] && 0 < i < |Lines(t)|
    ensures i - 1 < |Lines(u)| && i < |ReadLines(t)|
    ensures ReadLines(t)[i] == ReadLines(u)[i - 1] && Lines(t)[i] == Lines(u)[i - 1]
  {
    var k := IndexOf(t, '\n');
    LinesOfTerminated(t);
    ReadLinesOfTerminated(t);
    ReadLinesCount(u);
    var ls, rs := Lines(u), ReadLines(u);
    assert Lines(t) == [t[..k]] + ls;
    assert ReadLines(t) == [t[..k + 1]] + rs;
    assert |ls| == |rs|;
  }

  /** A non-empty stream without a newline is one line, for grep and for Python alike. */
  lemma LastLineUnterminated(t: string)
    requires |t| > 0 && IndexOf(t, '\n') == |t|
    ensures Lines(t) == [t] && ReadLines(t) == [t]
    ensures RStripNewlines(t) == t
  {
    assert t[|t| - 1] != '\n';
  }


  /** `rstrip('\n')` takes a newline-free line back from its terminated form. */
  lemma StripTerminatedLine(l: string)
    requires forall j :: 0 <= j < |l| ==> l[j] != '\n'
    ensures RStripNewlines(l + "\n") == l
  {
    var u := l + "\n";
    assert u[..|u| - 1] == l;
    assert |l| == 0 || l[|l| - 1] != '\n';
  }


}
