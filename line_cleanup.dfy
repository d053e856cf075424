/**
  * The two passes over the lines of the generated changelog, the same in all
  * three scripts: `remove_extra_blank_lines` and `remove_extra_lines`. The file
  * is read with `readlines()` and written back with `writelines()`; here a pass
  * takes that list of lines (each with its line ending) and returns the list
  * it would write.
  */
module LineCleanup {
  import opened Text

  // ---------------------------------------------------------------------------
  // remove_extra_blank_lines

  /** Line `i` is written: it is not blank, or it is the first of its run of
      blank lines. */
  predicate Keep(lines: seq<string>, i: int)
    requires 0 <= i < |lines|
  {
    !IsBlank(lines[i]) || i == 0 || !IsBlank(lines[i - 1])
  }

  /** The lines that are kept, in order. */
  function Collapsed(lines: seq<string>): seq<string>
    decreases |lines|
  {
    if lines == [] then []
    else Collapsed(lines[..|lines| - 1]) + (if Keep(lines, |lines| - 1) then [lines[|lines| - 1]] else [])
  }

  /** `remove_extra_blank_lines` on the lines of the file. */
  method RemoveExtraBlankLines(lines: seq<string>) returns (modifiedLines: seq<string>)
    ensures modifiedLines == Collapsed(lines)
  {
    modifiedLines := [];
    var isPreviousLineBlank := false;
    for i := 0 to |lines|
      invariant modifiedLines == Collapsed(lines[..i])
      invariant isPreviousLineBlank <==> i > 0 && IsBlank(lines[i - 1])
    {
      var line := lines[i];
      assert lines[..i + 1][..i] == lines[..i];
      assert Keep(lines[..i + 1], i) <==> Keep(lines, i);
      if IsBlank(line) {
        if !isPreviousLineBlank {
          modifiedLines := modifiedLines + [line];
        }
        isPreviousLineBlank := true;
      } else {
        modifiedLines := modifiedLines + [line];
        isPreviousLineBlank := false;
      }
    }
    assert lines[..|lines|] == lines;
  }

  /** No two neighbouring lines are both blank. */
  predicate NoBlankPair(lines: seq<string>) {
    forall j :: 0 < j < |lines| ==> !IsBlank(lines[j]) || !IsBlank(lines[j - 1])
  }

  /** The first and the last line survive, and the last line of the result is
      the last input line whenever that one is kept. */
  lemma CollapsedEnds(lines: seq<string>)
    requires lines != []
    ensures Collapsed(lines) != [] && Collapsed(lines)[0] == lines[0]
    ensures Keep(lines, |lines| - 1) ==> Collapsed(lines)[|Collapsed(lines)| - 1] == lines[|lines| - 1]
    ensures !Keep(lines, |lines| - 1) ==> Collapsed(lines) == Collapsed(lines[..|lines| - 1])
  {
    CollapsedFirst(lines);
  }

  lemma {:induction false} CollapsedFirst(lines: seq<string>)
    requires lines != []
    ensures Collapsed(lines) != [] && Collapsed(lines)[0] == lines[0]
    decreases |lines|
  {
    var init := lines[..|lines| - 1];
    if init != [] {
      CollapsedFirst(init);
      assert init[0] == lines[0];
    } else {
      assert Keep(lines, 0);
    }
  }

  /** The last line of the result is blank exactly when the last input line
      is. */
  lemma {:induction false} CollapsedLast(lines: seq<string>)
    requires lines != []
    ensures Collapsed(lines) != []
    ensures IsBlank(Collapsed(lines)[|Collapsed(lines)| - 1]) <==> IsBlank(lines[|lines| - 1])
    decreases |lines|
  {
    CollapsedFirst(lines);
    var init := lines[..|lines| - 1];
    if !Keep(lines, |lines| - 1) {
      CollapsedLast(init);
      assert init[|init| - 1] == lines[|lines| - 2];
    }
  }

  /** The output never has two blank lines in a row. */
  lemma {:induction false} CollapsedNoBlankPair(lines: seq<string>)
    ensures NoBlankPair(Collapsed(lines))
    decreases |lines|
  {
    if lines != [] {
      var init := lines[..|lines| - 1];
      var c := Collapsed(init);
      CollapsedNoBlankPair(init);
      if Keep(lines, |lines| - 1) && init != [] {
        var r := Collapsed(lines);
        assert r == c + [lines[|lines| - 1]];
        CollapsedLast(init);
        assert init[|init| - 1] == lines[|lines| - 2];
        forall j | 0 < j < |r| ensures !IsBlank(r[j]) || !IsBlank(r[j - 1]) {
          if j < |c| {
            assert r[j] == c[j] && r[j - 1] == c[j - 1];
          }
        }
      }
    }
  }

  /** The non-blank lines, in order. */
  function NonBlank(lines: seq<string>): seq<string>
    decreases |lines|
  {
    if lines == [] then []
    else NonBlank(lines[..|lines| - 1]) + (if IsBlank(lines[|lines| - 1]) then [] else [lines[|lines| - 1]])
  }

  /** Every non-blank line is kept, in order: only blank lines are dropped. */
  lemma {:induction false} CollapsedKeepsText(lines: seq<string>)
    ensures NonBlank(Collapsed(lines)) == NonBlank(lines)
    decreases |lines|
  {
    if lines != [] {
      var init := lines[..|lines| - 1];
      var last := lines[|lines| - 1];
      CollapsedKeepsText(init);
      assert NonBlank(lines) == NonBlank(init) + (if IsBlank(last) then [] else [last]);
      if Keep(lines, |lines| - 1) {
        assert Collapsed(lines) == Collapsed(init) + [last];
        NonBlankSnoc(Collapsed(init), last);
      } else {
        assert Collapsed(lines) == Collapsed(init) + [];
        assert Collapsed(init) + [] == Collapsed(init);
      }
    }
  }

  lemma NonBlankSnoc(s: seq<string>, x: string)
    ensures NonBlank(s + [x]) == NonBlank(s) + (if IsBlank(x) then [] else [x])
  {
    assert (s + [x])[..|s|] == s;
  }

  /** Text without two blank lines in a row is left as it is. */
  lemma {:induction false} CollapsedUnchanged(lines: seq<string>)
    requires NoBlankPair(lines)
    ensures Collapsed(lines) == lines
    decreases |lines|
  {
    if lines != [] {
      var init := lines[..|lines| - 1];
      assert NoBlankPair(init) by {
        forall j | 0 < j < |init| ensures !IsBlank(init[j]) || !IsBlank(init[j - 1]) {
          assert init[j] == lines[j] && init[j - 1] == lines[j - 1];
        }
      }
      CollapsedUnchanged(init);
      assert Keep(lines, |lines| - 1);
    }
  }

  /** Applying the pass twice gives what applying it once gives. */
  lemma CollapsedIdempotent(lines: seq<string>)
    ensures Collapsed(Collapsed(lines)) == Collapsed(lines)
  {
    CollapsedNoBlankPair(lines);
    CollapsedUnchanged(Collapsed(lines));
  }

  /** Of a run of blank lines the first is the one kept: dropping the second of
      two blank lines in a row does not change the output. */
  lemma {:induction false} CollapsedFirstOfRun(a: seq<string>, x: string, y: string, c: seq<string>)
    requires IsBlank(x) && IsBlank(y)
    ensures Collapsed(a + [x, y] + c) == Collapsed(a + [x] + c)
    decreases |c|
  {
    var p := a + [x, y];
    var q := a + [x];
    if c == [] {
      assert p + c == p && q + c == q;
      assert p[..|p| - 1] == q;
      assert !Keep(p, |p| - 1);
    } else {
      var init := c[..|c| - 1];
      var last := c[|c| - 1];
      CollapsedFirstOfRun(a, x, y, init);
      var pc := p + c;
      var qc := q + c;
      assert pc[..|pc| - 1] == p + init;
      assert qc[..|qc| - 1] == q + init;
      assert pc[|pc| - 1] == last && qc[|qc| - 1] == last;
      assert pc[|pc| - 2] == (if init == [] then y else init[|init| - 1]);
      assert qc[|qc| - 2] == (if init == [] then x else init[|init| - 1]);
      assert Keep(pc, |pc| - 1) <==> Keep(qc, |qc| - 1);
    }
  }

  // ---------------------------------------------------------------------------
  // remove_extra_lines

  /** What the pass ends with: the lines to write, or the `IndexError` raised
      when it pops from, or indexes into, an empty list. */
  datatype Outcome = Written(lines: seq<string>) | IndexError

  /** The rule line: with two lines or more, the second to last is deleted when
      it contains `---`. */
  function DropRule(lines: seq<string>): (r: seq<string>)
    ensures |lines| >= 2 && Contains(lines[|lines| - 2], "---") ==>
      |r| == |lines| - 1 && r[..|lines| - 2] == lines[..|lines| - 2] && r[|r| - 1] == lines[|lines| - 1]
    ensures !(|lines| >= 2 && Contains(lines[|lines| - 2], "---")) ==> r == lines
  {
    if |lines| >= 2 && Contains(lines[|lines| - 2], "---") then lines[..|lines| - 2] + [lines[|lines| - 1]]
    else lines
  }

  /** The trailing blank lines are removed down to one (or to a single line). */
  function CutTrailing(lines: seq<string>): (r: seq<string>)
    ensures r <= lines && (lines != [] ==> r != [])
    ensures forall i :: |r| <= i < |lines| ==> IsBlank(lines[i])
    ensures |r| <= 1 || !IsBlank(r[|r| - 1]) || !IsBlank(r[|r| - 2])
    ensures |r| < |lines| ==> IsBlank(r[|r| - 1])
    decreases |lines|
  {
    if |lines| > 1 && IsBlank(lines[|lines| - 1]) && IsBlank(lines[|lines| - 2]) then
      CutTrailing(lines[..|lines| - 1])
    else lines
  }

  /** `k` copies of the blank line `"\n"`. */
  function Newlines(k: nat): (r: seq<string>)
    ensures |r| == k && forall i :: 0 <= i < k ==> r[i] == "\n"
  {
    seq(k, _ => "\n")
  }

  /** Content whose last line is not blank, followed by blank lines: the cut
      keeps the content and the first blank line. */
  lemma {:induction false} CutTrailingContent(c: seq<string>, k: nat)
    requires c != [] && !IsBlank(c[|c| - 1]) && k >= 1
    ensures CutTrailing(c + Newlines(k)) == c + ["\n"]
    decreases k
  {
    var s := c + Newlines(k);
    assert IsBlank("\n") by {
      assert "\n"[0] == '\n';
    }
    if k == 1 {
      assert Newlines(1) == ["\n"];
      assert s[|s| - 2] == c[|c| - 1];
    } else {
      assert s[..|s| - 1] == c + Newlines(k - 1);
      assert s[|s| - 1] == "\n" && s[|s| - 2] == "\n";
      CutTrailingContent(c, k - 1);
    }
  }

  /** The usual case: the pass ends content that is followed by blank lines
      with exactly one `"\n"` line. */
  lemma FinishContent(c: seq<string>, k: nat)
    requires c != [] && !IsBlank(c[|c| - 1]) && k >= 1
    ensures Finish(c + Newlines(k)) == Written(c + ["\n"])
  {
    CutTrailingContent(c, k);
    assert (c + ["\n"])[..|c|] == c;
  }

  /** With at least two blank lines after the content there is no rule line to
      delete, and the file ends as the content and one `"\n"` line. */
  lemma ExtraLinesContent(c: seq<string>, k: nat)
    requires c != [] && !IsBlank(c[|c| - 1]) && k >= 2
    ensures ExtraLinesRemoved(c + Newlines(k)) == Written(c + ["\n"])
  {
    var s := c + Newlines(k);
    assert s[|s| - 2] == "\n";
    assert !Contains("\n", "---") by { assert "\n"[1..] == []; }
    FinishContent(c, k);
  }

  /** What the pass does after the rule line: the trailing blank lines cut, the
      last remaining line popped, and a `"\n"` line added unless the new last
      line is blank. */
  function Finish(l1: seq<string>): Outcome {
    if l1 == [] then IndexError
    else
      var l2 := CutTrailing(l1);
      var l3 := l2[..|l2| - 1];
      if l3 == [] then IndexError
      else if !IsBlank(l3[|l3| - 1]) then Written(l3 + ["\n"])
      else Written(l3)
  }

  function ExtraLinesRemoved(lines: seq<string>): Outcome {
    Finish(DropRule(lines))
  }

  /** `remove_extra_lines` on the lines of the file. */
  method RemoveExtraLines(input: seq<string>) returns (outcome: Outcome)
    ensures outcome == ExtraLinesRemoved(input)
  {
    var lines := input;
    if |lines| >= 2 && Contains(lines[|lines| - 2], "---") {
      lines := lines[..|lines| - 2] + [lines[|lines| - 1]];
    }
    ghost var l1 := lines;
    assert l1 == DropRule(input);
    while |lines| > 1 && IsBlank(lines[|lines| - 1]) && IsBlank(lines[|lines| - 2])
      invariant CutTrailing(lines) == CutTrailing(l1)
      invariant l1 != [] ==> lines != []
      decreases |lines|
    {
      lines := lines[..|lines| - 1];
    }
    assert lines == CutTrailing(l1);
    if lines == [] {
      return IndexError;
    }
    lines := lines[..|lines| - 1];
    if lines == [] {
      return IndexError;
    }
    if !IsBlank(lines[|lines| - 1]) {
      lines := lines + ["\n"];
    }
    return Written(lines);
  }

  predicate AllBlank(lines: seq<string>) {
    forall i :: 0 <= i < |lines| ==> IsBlank(lines[i])
  }

  /** The cut stops at one line exactly when the input is one line or only
      blank lines. */
  lemma {:induction false} CutTrailingSingle(lines: seq<string>)
    requires lines != []
    ensures |CutTrailing(lines)| == 1 <==> |lines| == 1 || AllBlank(lines)
    decreases |lines|
  {
    var n := |lines|;
    if n > 1 && IsBlank(lines[n - 1]) && IsBlank(lines[n - 2]) {
      var init := lines[..n - 1];
      CutTrailingSingle(init);
      if AllBlank(init) {
        assert forall i :: 0 <= i < n - 1 ==> init[i] == lines[i];
        assert AllBlank(lines);
      } else if n > 2 {
        var i :| 0 <= i < n - 1 && !IsBlank(init[i]);
        assert lines[i] == init[i];
      }
      if AllBlank(lines) {
        assert AllBlank(init) by {
          forall i | 0 <= i < n - 1 ensures IsBlank(init[i]) {
            assert init[i] == lines[i];
          }
        }
      }
    } else if n > 1 {
      assert !AllBlank(lines) by {
        assert !IsBlank(lines[n - 1]) || !IsBlank(lines[n - 2]);
      }
    }
  }

  /** The pass fails exactly when the list left after the rule line has at most
      one line or only blank lines. */
  lemma ExtraLinesError(lines: seq<string>)
    ensures ExtraLinesRemoved(lines).IndexError? <==>
      |DropRule(lines)| <= 1 || AllBlank(DropRule(lines))
  {
    var l1 := DropRule(lines);
    if l1 != [] {
      CutTrailingSingle(l1);
    }
  }

  /** On success the last line written is blank. */
  lemma ExtraLinesEndBlank(lines: seq<string>)
    requires ExtraLinesRemoved(lines).Written?
    ensures var out := ExtraLinesRemoved(lines).lines;
      out != [] && IsBlank(out[|out| - 1])
  {
    var l2 := CutTrailing(DropRule(lines));
    var l3 := l2[..|l2| - 1];
    if !IsBlank(l3[|l3| - 1]) {
      assert IsBlank("\n");
    }
  }

  /** On success the lines written are, but for one added `"\n"`, a prefix of the
      list left after the rule line, one line shorter at least. */
  lemma ExtraLinesPrefix(lines: seq<string>)
    requires ExtraLinesRemoved(lines).Written?
    ensures var out := ExtraLinesRemoved(lines).lines;
      var l1 := DropRule(lines);
      (out < l1) || (out[..|out| - 1] < l1 && out[|out| - 1] == "\n")
  {
    var l1 := DropRule(lines);
    var l2 := CutTrailing(l1);
    var l3 := l2[..|l2| - 1];
    var out := ExtraLinesRemoved(lines).lines;
    assert l3 < l1;
    if out != l3 {
      assert out == l3 + ["\n"];
      assert out[..|out| - 1] == l3;
    }
  }

  /** The last line is popped even when it is not blank: with a non-blank last
      line nothing is cut, that line is dropped, and `"\n"` follows the line
      before it unless that one is blank. */
  lemma ExtraLinesDropsLast(l1: seq<string>)
    requires |l1| >= 2 && !IsBlank(l1[|l1| - 1])
    ensures Finish(l1) == Written(l1[..|l1| - 1] + (if IsBlank(l1[|l1| - 2]) then [] else ["\n"]))
  {
    var l3 := l1[..|l1| - 1];
    assert l3[|l3| - 1] == l1[|l1| - 2];
    assert l3 + [] == l3;
  }

  /** The rule line is dropped only when it is second to last. */
  lemma DropRuleSecondToLast(a: seq<string>, rule: string, last: string)
    requires Contains(rule, "---")
    ensures DropRule(a + [rule, last]) == a + [last]
  {
    var s := a + [rule, last];
    assert s[|s| - 2] == rule;
    assert s[..|s| - 2] == a;
  }
}
