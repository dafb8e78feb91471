/**
 * `parse_multiline_field`: a cell holding one value per line becomes the
 * list of its trimmed, non-blank lines.
 */
module Fields {
  import opened Wrappers
  import opened Text

  /** Index of the first line break in `s`, or `|s|`. */
  function LineEnd(s: string): (i: nat)
    ensures i <= |s| && (i < |s| ==> IsLineBreak(s[i]))
    ensures forall k :: 0 <= k < i ==> !IsLineBreak(s[k])
  {
    if s == [] || IsLineBreak(s[0]) then 0 else 1 + LineEnd(s[1..])
  }

  lemma LineEndIs(s: string, i: nat)
    requires i <= |s| && (i < |s| ==> IsLineBreak(s[i]))
    requires forall k :: 0 <= k < i ==> !IsLineBreak(s[k])
    ensures LineEnd(s) == i
  {
    var j := LineEnd(s);
    assert !(j < i) && !(i < j);
  }

  /** A `\r\n` pair is one line break; every other break is one character. */
  function BreakWidth(s: string, i: nat): nat
    requires i < |s|
  {
    if s[i] == '\r' && i + 1 < |s| && s[i + 1] == '\n' then 2 else 1
  }

  /** Python's `str.splitlines()`: no trailing empty line, break characters dropped. */
  function SplitLines(s: string): (lines: seq<string>)
    decreases |s|
  {
    if s == [] then []
    else
      var i := LineEnd(s);
      if i == |s| then [s]
      else [s[..i]] + SplitLines(s[i + BreakWidth(s, i)..])
  }

  /** `[line.strip() for line in lines if line.strip()]` */
  function Clean(lines: seq<string>): seq<string> {
    if lines == [] then []
    else (if Strip(lines[0]) == [] then [] else [Strip(lines[0])]) + Clean(lines[1..])
  }

  /** `parse_multiline_field` (close_script.py:40-43); `None` is Python's `None`. */
  function ParseMultilineField(value: Option<string>): (r: seq<string>)
    ensures value.None? || value == Some("") ==> r == []
    ensures forall k :: 0 <= k < |r| ==> r[k] != [] && Stripped(r[k]) && NoLineBreak(r[k])
  {
    if value.None? || value.value == "" then []
    else
      var r := Clean(SplitLines(value.value));
      SplitLinesNoBreak(value.value);
      CleanElements(SplitLines(value.value));
      r
  }

  /** No line of `splitlines` contains a line break. */
  lemma {:induction false} SplitLinesNoBreak(s: string)
    ensures forall k :: 0 <= k < |SplitLines(s)| ==> NoLineBreak(SplitLines(s)[k])
    decreases |s|
  {
    if s != [] && LineEnd(s) < |s| {
      var i := LineEnd(s);
      SplitLinesNoBreak(s[i + BreakWidth(s, i)..]);
    }
  }

  lemma {:induction false} CleanElements(lines: seq<string>)
    requires forall k :: 0 <= k < |lines| ==> NoLineBreak(lines[k])
    ensures forall k :: 0 <= k < |Clean(lines)| ==>
      Clean(lines)[k] != [] && Stripped(Clean(lines)[k]) && NoLineBreak(Clean(lines)[k])
  {
    if lines != [] {
      CleanElements(lines[1..]);
      StripKeepsCharacters(lines[0]);
      var s := Strip(lines[0]);
      assert NoLineBreak(s) by {
        forall k | 0 <= k < |s| ensures !IsLineBreak(s[k]) {
          var m :| 0 <= m < |lines[0]| && lines[0][m] == s[k];
        }
      }
    }
  }

  lemma {:induction false} CleanAppend(xs: seq<string>, ys: seq<string>)
    ensures Clean(xs + ys) == Clean(xs) + Clean(ys)
    decreases |xs|
  {
    if xs != [] {
      assert (xs + ys)[0] == xs[0] && (xs + ys)[1..] == xs[1..] + ys;
      CleanAppend(xs[1..], ys);
    } else {
      assert xs + ys == ys;
    }
  }

  lemma CleanBlank()
    ensures Clean([""]) == []
  {
    StripEmpty("");
  }

  /** The trimmed non-blank lines of `s`, whatever `s` is. */
  lemma ParseMultilineIsClean(s: string)
    ensures ParseMultilineField(Some(s)) == Clean(SplitLines(s))
  {
  }

  /** The lines of a text that does not start a new line at its end. */
  lemma SplitLinesStep(s: string, i: nat)
    requires i < |s| && LineEnd(s) == i
    ensures SplitLines(s) == [s[..i]] + SplitLines(s[i + BreakWidth(s, i)..])
  {
  }

  /** `lines` without its empty strings. */
  function DropEmpty(lines: seq<string>): seq<string> {
    if lines == [] then []
    else (if lines[0] == [] then [] else [lines[0]]) + DropEmpty(lines[1..])
  }

  lemma {:induction false} DropEmptyAppend(xs: seq<string>, ys: seq<string>)
    ensures DropEmpty(xs + ys) == DropEmpty(xs) + DropEmpty(ys)
    decreases |xs|
  {
    if xs != [] {
      assert (xs + ys)[0] == xs[0] && (xs + ys)[1..] == xs[1..] + ys;
      DropEmptyAppend(xs[1..], ys);
    } else {
      assert xs + ys == ys;
    }
  }

  /** Empty lines are blank, so `Clean` drops them anyway. */
  lemma {:induction false} CleanDropEmpty(lines: seq<string>)
    ensures Clean(DropEmpty(lines)) == Clean(lines)
    decreases |lines|
  {
    if lines != [] {
      CleanDropEmpty(lines[1..]);
      var head := if lines[0] == [] then [] else [lines[0]];
      CleanAppend(head, DropEmpty(lines[1..]));
      if lines[0] == [] {
        CleanBlank();
      } else {
        assert [lines[0]][1..] == [];
      }
    }
  }

  lemma SplitLinesWhole(s: string)
    requires LineEnd(s) == |s|
    ensures DropEmpty(SplitLines(s)) == DropEmpty([s])
  {
    if s == [] {
      assert DropEmpty([s]) == DropEmpty([]) + DropEmpty([s][1..]);
    }
  }

  /** The lines of `s` when its first break, at `|a|`, is one character wide. */
  lemma SplitAtBreak(s: string, a: string, b: string)
    requires |a| < |s| && s[..|a|] == a && s[|a| + 1..] == b
    requires LineEnd(s) == |a| && BreakWidth(s, |a|) == 1
    ensures DropEmpty(SplitLines(s)) == DropEmpty([a]) + DropEmpty(SplitLines(b))
  {
    SplitLinesStep(s, |a|);
    DropEmptyAppend([a], SplitLines(b));
  }

  /** The lines of `s` when its first break, at `|a|`, is a `\r\n` pair. */
  lemma SplitAtCrlf(s: string, a: string, b: string)
    requires |a| + 1 < |s| && s[..|a|] == a && s[|a| + 2..] == b
    requires LineEnd(s) == |a| && BreakWidth(s, |a|) == 2
    ensures DropEmpty(SplitLines(s)) == DropEmpty([a]) + DropEmpty(SplitLines(b))
  {
    SplitLinesStep(s, |a|);
    DropEmptyAppend([a], SplitLines(b));
  }

  /** A break at the very start of `b` only adds an empty line. */
  lemma SplitLeadingBreak(b: string)
    requires b != [] && IsLineBreak(b[0]) && BreakWidth(b, 0) == 1
    ensures DropEmpty(SplitLines(b)) == DropEmpty(SplitLines(b[1..]))
  {
    LineEndIs(b, 0);
    SplitLinesStep(b, 0);
    assert b[..0] == "";
    DropEmptyAppend([""], SplitLines(b[1..]));
  }

  /** The case where the first line break of `a + [c] + b` is `c` itself. */
  lemma SplitJoinAtBreak(a: string, c: char, b: string)
    requires IsLineBreak(c) && LineEnd(a) == |a|
    ensures DropEmpty(SplitLines(a + [c] + b)) == DropEmpty(SplitLines(a)) + DropEmpty(SplitLines(b))
  {
    var s := a + [c] + b;
    LineEndIs(s, |a|);
    assert s[..|a|] == a;
    SplitLinesWhole(a);
    if c == '\r' && b != [] && b[0] == '\n' {
      assert s[|a| + 2..] == b[1..];
      SplitAtCrlf(s, a, b[1..]);
      SplitLeadingBreak(b);
    } else {
      assert s[|a| + 1..] == b;
      SplitAtBreak(s, a, b);
    }
  }

  /** The case where `a` ends with a lone carriage return, its first break. */
  lemma SplitJoinAfterReturn(a: string, c: char, b: string)
    requires IsLineBreak(c)
    requires 0 < |a| && LineEnd(a) == |a| - 1 && a[|a| - 1] == '\r'
    ensures DropEmpty(SplitLines(a + [c] + b)) == DropEmpty(SplitLines(a)) + DropEmpty(SplitLines(b))
  {
    var s := a + [c] + b;
    var line := a[..|a| - 1];
    ReturnThenBreak(a, c, b, s);
    SplitAtBreak(a, line, []);
    assert DropEmpty(SplitLines([])) == [];
    if c == '\n' {
      SplitAtCrlf(s, line, b);
    } else {
      BreakFirst(c, b);
      SplitAtBreak(s, line, [c] + b);
    }
  }

  /** `s`, which is `a + [c] + b` with `a` ending in its only break, a `\r`:
      that `\r` and `c` make one break when `c` is `\n`, two otherwise. */
  lemma ReturnThenBreak(a: string, c: char, b: string, s: string)
    requires IsLineBreak(c) && s == a + [c] + b
    requires 0 < |a| && LineEnd(a) == |a| - 1 && a[|a| - 1] == '\r'
    ensures |a| < |s| && LineEnd(s) == |a| - 1 && s[..|a| - 1] == a[..|a| - 1]
    ensures c == '\n' ==> BreakWidth(s, |a| - 1) == 2 && s[|a| + 1..] == b
    ensures c != '\n' ==> BreakWidth(s, |a| - 1) == 1 && s[|a|..] == [c] + b
  {
    JoinParts(a, c, b, s);
    LineEndIs(s, |a| - 1);
    assert s[..|a| - 1] == a[..|a| - 1];
  }

  /** Where the parts of `a + [c] + b` sit. */
  lemma JoinParts(a: string, c: char, b: string, s: string)
    requires s == a + [c] + b
    ensures |s| == |a| + 1 + |b| && s[|a|] == c && s[|a|..] == [c] + b && s[|a| + 1..] == b
    ensures forall k :: 0 <= k < |a| ==> s[k] == a[k]
  {
    assert s == a + ([c] + b);
  }

  /** A text that starts with a break has the lines of what follows it. */
  lemma BreakFirst(c: char, b: string)
    requires IsLineBreak(c)
    ensures DropEmpty(SplitLines([c] + b)) == DropEmpty(SplitLines(b))
  {
    SplitJoinAtBreak([], c, b);
    assert [] + [c] + b == [c] + b;
  }

  /** Up to empty lines, the lines of `a + [c] + b` are those of `a` then those of `b`. */
  lemma {:induction false} SplitJoin(a: string, c: char, b: string)
    requires IsLineBreak(c)
    ensures DropEmpty(SplitLines(a + [c] + b)) == DropEmpty(SplitLines(a)) + DropEmpty(SplitLines(b))
    decreases |a|
  {
    var i := LineEnd(a);
    if i == |a| {
      SplitJoinAtBreak(a, c, b);
    } else if a[i] == '\r' && i + 1 == |a| {
      SplitJoinAfterReturn(a, c, b);
    } else {
      var w := BreakWidth(a, i);
      SplitJoin(a[i + w..], c, b);
      SplitJoinPastBreak(a, c, b, i, w);
    }
  }

  /** The case where `a` has a break of its own, of width `w` at `i`, before
      its end: the line up to it is shared, and the rest joins as a shorter
      `a` does. */
  lemma SplitJoinPastBreak(a: string, c: char, b: string, i: nat, w: nat)
    requires i == LineEnd(a) && i < |a| && w == BreakWidth(a, i)
    requires !(a[i] == '\r' && i + 1 == |a|)
    requires DropEmpty(SplitLines(a[i + w..] + [c] + b)) == DropEmpty(SplitLines(a[i + w..])) + DropEmpty(SplitLines(b))
    ensures DropEmpty(SplitLines(a + [c] + b)) == DropEmpty(SplitLines(a)) + DropEmpty(SplitLines(b))
  {
    var s := a + [c] + b;
    var rest := a[i + w..] + [c] + b;
    PastBreak(a, c, b, i, w, s, rest);
    SplitStepBoth(a, s, i, w, rest, DropEmpty(SplitLines(b)));
  }

  /** When `a` has a break of its own, of width `w` at `i`, before its end,
      `s`, which is `a + [c] + b`, has the same first line and the same
      break, and after it the rest of `a` joined with `b`. */
  lemma PastBreak(a: string, c: char, b: string, i: nat, w: nat, s: string, rest: string)
    requires i == LineEnd(a) && i < |a| && w == BreakWidth(a, i)
    requires !(a[i] == '\r' && i + 1 == |a|)
    requires s == a + [c] + b && rest == a[i + w..] + [c] + b
    ensures i < |s| && LineEnd(s) == i && s[..i] == a[..i] && BreakWidth(s, i) == w && s[i + w..] == rest
  {
    assert forall k :: 0 <= k < |a| ==> s[k] == a[k];
    LineEndIs(s, i);
    assert s[..i] == a[..i];
    if i + 1 < |a| {
      assert s[i + 1] == a[i + 1];
    } else {
      assert a[i] != '\r';
    }
    DropAfter(a, c, b, i + w);
  }

  lemma DropAfter(x: string, c: char, y: string, n: nat)
    requires n <= |x|
    ensures (x + [c] + y)[n..] == x[n..] + [c] + y
  {
  }

  /** `a` and `s` agree up to and including their first break, so do their lines. */
  lemma SplitStepBoth(a: string, s: string, i: nat, w: nat, rest: string, tail: seq<string>)
    requires i < |a| && i < |s| && LineEnd(a) == i && LineEnd(s) == i && a[..i] == s[..i]
    requires BreakWidth(a, i) == w && BreakWidth(s, i) == w && s[i + w..] == rest
    requires DropEmpty(SplitLines(rest)) == DropEmpty(SplitLines(a[i + w..])) + tail
    ensures DropEmpty(SplitLines(s)) == DropEmpty(SplitLines(a)) + tail
  {
    var ra := SplitLines(a[i + w..]);
    var rs := SplitLines(s[i + w..]);
    SplitLinesStep(a, i);
    SplitLinesStep(s, i);
    var head := DropEmpty([a[..i]]);
    DropEmptyAppend([a[..i]], ra);
    DropEmptyAppend([a[..i]], rs);
    AppendAssociative(head, DropEmpty(ra), tail);
  }

  lemma AppendAssociative(x: seq<string>, y: seq<string>, z: seq<string>)
    ensures x + (y + z) == (x + y) + z
  {
  }

  /** Text without a line break is one value: its stripped self, unless blank. */
  lemma SingleLine(s: string)
    requires NoLineBreak(s)
    ensures ParseMultilineField(Some(s)) == if Strip(s) == [] then [] else [Strip(s)]
  {
    LineEndIs(s, |s|);
    ParseMultilineIsClean(s);
    if s != [] {
      assert SplitLines(s) == [s];
      assert [s][1..] == [];
      assert Clean([s]) == (if Strip(s) == [] then [] else [Strip(s)]) + Clean([]);
    } else {
      StripEmpty(s);
    }
  }

  /** Values separated by any line break are parsed separately and concatenated. */
  lemma ParseMultilineJoin(a: string, c: char, b: string)
    requires IsLineBreak(c)
    ensures ParseMultilineField(Some(a + [c] + b))
         == ParseMultilineField(Some(a)) + ParseMultilineField(Some(b))
  {
    SplitJoin(a, c, b);
    ParseMultilineIsClean(a + [c] + b);
    ParseMultilineIsClean(a);
    ParseMultilineIsClean(b);
    CleanDropEmpty(SplitLines(a + [c] + b));
    CleanDropEmpty(SplitLines(a));
    CleanDropEmpty(SplitLines(b));
    CleanAppend(DropEmpty(SplitLines(a)), DropEmpty(SplitLines(b)));
  }
}
