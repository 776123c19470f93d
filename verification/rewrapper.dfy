/**
 The program's own loops (ansi-wrap.py lines 9-69), written as methods that
 build the output string write by write, and proved to produce exactly what the
 functional model of the tracker describes.
 */
module Rewrapper {
  import opened Records
  import opened Scanner
  import opened CursorCodes
  import opened Tracker

  /** The first-letter search is pinned down by its contract. */
  lemma FindAlphaIs(s: string, j: nat, k: nat)
    requires j <= k <= |s|
    requires k < |s| ==> IsAlpha(s[k])
    requires forall m :: j <= m < k ==> !IsAlpha(s[m])
    ensures FindAlpha(s, j) == k
  {
  }

  /** The output still to come for the record from position `i` on, at column `col`. */
  function Rest(line: string, i: nat, col: int, width: int): string
    requires i <= |line|
  {
    Render(Run(Scan(line[i..]), col, width).emits)
  }

  /** One pass of the loop, as `HandleUnit` promises it, leaves the rest of the
      record to go after the writes it made. */
  lemma Advance(line: string, i: nat, col: int, width: int, piece: string, col': int, i': nat)
    requires i < |line|
    requires var u := Lead(line[i..]);
             var st := Step(u, col, width);
             i' == i + |Text(u)| && piece == Render(st.emits) && col' == st.col
    ensures i' <= |line|
    ensures Rest(line, i, col, width) == piece + Rest(line, i', col', width)
  {
    var u := Lead(line[i..]);
    var st := Step(u, col, width);
    assert line[i..][|Text(u)|..] == line[i'..];
    assert Scan(line[i..]) == [u] + Scan(line[i'..]);
    assert ([u] + Scan(line[i'..]))[1..] == Scan(line[i'..]);
    RenderAppend(st.emits, Run(Scan(line[i'..]), col', width).emits);
  }

  /** What is written for a unit copied on its own, and for one after an injected line feed. */
  lemma RenderUnit(u: Unit)
    ensures Render([Echo(u)]) == Text(u)
    ensures Render([Break, Echo(u)]) == [NL] + Text(u)
  {
    assert [Echo(u)][1..] == [];
    assert [Break, Echo(u)][1..] == [Echo(u)];
  }

  /** The unit at an ESC whose token ends with the letter at `j`. */
  lemma LeadTerminated(line: string, i: nat, j: nat)
    requires i < |line| && line[i] == ESC
    requires i + 1 <= j < |line| && IsAlpha(line[j])
    requires forall m :: i + 1 <= m < j ==> !IsAlpha(line[m])
    ensures Lead(line[i..]) == Esc(line[i..j + 1])
    ensures Terminated(line[i..j + 1])
  {
    var s := line[i..];
    FindAlphaIs(s, 1, j - i);
    assert s[..j - i + 1] == line[i..j + 1];
  }

  /** The unit at an ESC with no letter after it. */
  lemma LeadUnterminated(line: string, i: nat)
    requires i < |line| && line[i] == ESC
    requires forall m :: i + 1 <= m < |line| ==> !IsAlpha(line[m])
    ensures Lead(line[i..]) == Esc(line[i..])
    ensures !Terminated(line[i..])
  {
    var tok := line[i..];
    FindAlphaIs(tok, 1, |tok|);
    assert tok[..|tok|] == tok;
  }

  /** The search for the end of an escape token (lines 18-21): the first letter after
      position `i`, or the end of the record. */
  method TokenEnd(line: string, i: nat) returns (j: nat)
    requires i < |line|
    ensures i + 1 <= j <= |line|
    ensures j < |line| ==> IsAlpha(line[j])
    ensures forall m :: i + 1 <= m < j ==> !IsAlpha(line[m])
  {
    j := i + 1;
    while j < |line| && !IsAlpha(line[j])
      invariant i + 1 <= j <= |line|
      invariant forall m :: i + 1 <= m < j ==> !IsAlpha(line[m])
    {
      j := j + 1;
    }
  }

  /** The token at an ESC (lines 16-24): `line[i:j+1]`, which is the scanner's unit
      there, ended by a letter when `j` is inside the record. */
  method CutToken(line: string, i: nat) returns (j: nat)
    requires i < |line| && line[i] == ESC
    ensures i + 1 <= j <= |line|
    ensures j < |line| ==> Lead(line[i..]) == Esc(line[i..j + 1]) && Terminated(line[i..j + 1])
    ensures j == |line| ==> Lead(line[i..]) == Esc(line[i..]) && !Terminated(line[i..])
  {
    j := TokenEnd(line, i);
    if j < |line| {
      LeadTerminated(line, i, j);
    } else {
      LeadUnterminated(line, i);
    }
  }

  /** The escape branch of the loop body (lines 16-47): the token is copied, and
      the cursor pattern is tried only when a letter ended it. */
  method HandleEscape(line: string, i: nat, col: int, width: int) returns (piece: string, col': int, i': nat)
    requires i < |line| && line[i] == ESC
    ensures var u := Lead(line[i..]);
            i' == i + |Text(u)| && piece == Text(u) && col' == Move(u.token, col)
  {
    var j := CutToken(line, i);
    if j < |line| {
      piece := line[i..j + 1];
      col' := Classify(piece, col);
      i' := j + 1;
    } else {
      // No letter: the pattern is not tried, and Python's i = j + 1 ends the loop.
      piece := line[i..];
      col' := col;
      i' := |line|;
    }
  }

  /** One pass of the loop body (lines 15-68): it writes what the tracker writes for
      the unit at position `i`, moves the column as the tracker does, and goes on
      right after that unit. */
  method HandleUnit(line: string, i: nat, col: int, width: int) returns (piece: string, col': int, i': nat)
    requires i < |line|
    ensures var u := Lead(line[i..]);
            var st := Step(u, col, width);
            i' == i + |Text(u)| && piece == Render(st.emits) && col' == st.col
  {
    ghost var u := Lead(line[i..]);
    RenderUnit(u);
    if line[i] == ESC {
      piece, col', i' := HandleEscape(line, i, col, width);
    } else if line[i] == TAB {
      var nextTab := (col / 8 + 1) * 8;
      piece := [line[i]];
      col' := nextTab;
      i' := i + 1;
    } else if line[i] == BS {
      piece := [line[i]];
      col' := if col - 1 > 0 then col - 1 else 0;
      i' := i + 1;
    } else {
      piece, col' := [], col;
      if col' >= width {
        piece := piece + [NL];
        col' := 0;
      }
      piece := piece + [line[i]];
      col' := col' + 1;
      i' := i + 1;
    }
  }

  /** The per-record loop (lines 12-69). */
  method WrapLine(line: string, width: int) returns (out: string)
    ensures out == Record(line, width)
  {
    var col := 0;
    var i := 0;
    out := "";
    assert line[0..] == line;
    while i < |line|
      invariant 0 <= i <= |line|
      invariant out + Rest(line, i, col, width) == Body(line, width)
      decreases |line| - i
    {
      var piece, col', i' := HandleUnit(line, i, col, width);
      Advance(line, i, col, width, piece, col', i');
      ghost var rest := Rest(line, i', col', width);
      assert (out + piece) + rest == out + (piece + rest);
      out, col, i := out + piece, col', i';
    }
    assert Rest(line, i, col, width) == "" by {
      assert line[i..] == [];
    }
    out := out + [NL];
  }

  /** Appending the next record's output keeps the loop invariant of `RewrapText`. */
  lemma NextRecord(lines: seq<string>, n: nat, width: int, out: string)
    requires n < |lines|
    requires out + WrapAll(lines[n..], width) == WrapAll(lines, width)
    ensures (out + Record(lines[n], width)) + WrapAll(lines[n + 1..], width) == WrapAll(lines, width)
  {
    assert lines[n..][1..] == lines[n + 1..];
    var o := Record(lines[n], width);
    var rest := WrapAll(lines[n + 1..], width);
    assert WrapAll(lines[n..], width) == o + rest;
    assert (out + o) + rest == out + (o + rest);
  }

  /** The whole program (lines 9-69): split the input into records and wrap each in turn. */
  method RewrapText(data: string, width: int) returns (out: string)
    ensures out == Rewrap(data, width)
  {
    var lines := Split(data);
    out := "";
    var n := 0;
    while n < |lines|
      invariant 0 <= n <= |lines|
      invariant out + WrapAll(lines[n..], width) == WrapAll(lines, width)
    {
      var o := WrapLine(lines[n], width);
      NextRecord(lines, n, width, out);
      out := out + o;
      n := n + 1;
    }
  }
}
