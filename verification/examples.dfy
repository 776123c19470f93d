/**
 Worked examples at width 5, computed from the model.
 */
module WrapExamples {
  import opened Records
  import opened Scanner
  import opened CursorCodes
  import opened Tracker
  import opened WrapProperties

  /** "abcdefgh" breaks after five characters. */
  lemma EightLetters(s: string)
    requires s == "abcdefgh"
    ensures Record(s, 5) == "abcde\nfgh\n"
  {
    assert Plain(s);
    PlainRecordChunks(s, 5);
    assert s[..5] == "abcde" && s[5..] == "fgh";
    assert Chunks("fgh", 5) == ["fgh"];
    assert Chunks(s, 5) == ["abcde", "fgh"];
    assert Join(["abcde", "fgh"]) == "abcde" + [NL] + "fgh";
  }

  /** A record exactly as long as the width is not broken: the break comes only
      before a further ordinary character. */
  lemma ExactWidth(s: string)
    requires s == "abcde"
    ensures Record(s, 5) == "abcde\n"
  {
    assert Plain(s);
    PlainRecordChunks(s, 5);
    assert Chunks(s, 5) == [s];
  }

  /** The empty record still gets its line feed. */
  lemma EmptyRecord()
    ensures Record("", 5) == "\n"
  {
    assert Scan("") == [];
  }

  lemma ScanTab(b: string)
    ensures Scan([TAB] + b) == [Tab] + Scan(b)
  {
    assert Lead([TAB] + b) == Tab;
    assert ([TAB] + b)[1..] == b;
  }

  lemma ScanAroundTab(a: string, b: string)
    requires Plain(a) && Plain(b)
    ensures Scan(a + [TAB] + b) == Ordinaries(a) + ([Tab] + Ordinaries(b))
  {
    ScanPlainThen(a, [TAB] + b);
    ScanTab(b);
    ScanPlain(b);
    assert a + ([TAB] + b) == a + [TAB] + b;
  }

  lemma Regroup(a: string, b: string, c: string, d: string)
    ensures a + (b + (c + d)) == a + b + c + d
  {
  }

  /** A tab that takes the column to the width or past it sends the next ordinary
      character to a new line; the tab itself stays on the old one. */
  lemma TabPastWidth(a: string, b: string, width: int)
    requires Plain(a) && Plain(b) && 1 <= |b| <= width && |a| <= width
    requires TabStop(|a|) >= width
    ensures Record(a + [TAB] + b, width) == a + [TAB] + [NL] + b + [NL]
  {
    var ua, ub := Ordinaries(a), Ordinaries(b);
    var s := a + [TAB] + b;
    ScanAroundTab(a, b);
    var ra := Run(ua, 0, width);
    var rb := Run(ub, TabStop(|a|), width);
    assert ra.col == |a| && Render(ra.emits) == a by {
      RunFits(a, 0, width);
    }
    assert Render(rb.emits) == [NL] + b by {
      AtWidth(b, TabStop(|a|), width);
      RunFits(b, 0, width);
    }
    assert Run([Tab] + ub, |a|, width).emits == [Echo(Tab)] + rb.emits by {
      assert ([Tab] + ub)[1..] == ub;
    }
    var es := Run(Scan(s), 0, width).emits;
    assert es == ra.emits + ([Echo(Tab)] + rb.emits) by {
      RunAppend(ua, [Tab] + ub, 0, width);
    }
    var tail := Render([Echo(Tab)] + rb.emits);
    assert tail == [TAB] + ([NL] + b) by {
      RenderAppend([Echo(Tab)], rb.emits);
      assert Render([Echo(Tab)]) == [TAB];
    }
    RenderAppend(ra.emits, [Echo(Tab)] + rb.emits);
    assert Render(es) == a + tail;
    Regroup(a, [TAB], [NL], b);
  }

  /** "ab", a tab, "cd": the tab takes the column from 2 to 8, so the c goes to a new line. */
  lemma TabExample(s: string)
    requires s == "ab\tcd"
    ensures Record(s, 5) == "ab\t\ncd\n"
  {
    assert Plain("ab") && Plain("cd");
    assert s == "ab" + [TAB] + "cd";
    TabPastWidth("ab", "cd", 5);
  }

  lemma ScanCode(x: Code)
    requires Canonical(x)
    ensures Scan(Print(x)) == [Esc(Print(x))]
  {
    var t := Print(x);
    PrintTerminated(x);
    assert Flatten([Esc(t)]) == t;
    ScanFlatten([Esc(t)]);
  }

  lemma ScanCodeThen(x: Code, b: string)
    requires Canonical(x) && Plain(b)
    ensures Scan(Print(x) + b) == [Esc(Print(x))] + Ordinaries(b)
  {
    PrintTerminated(x);
    ScanCode(x);
    ScanAppend(Print(x), b);
    ScanPlain(b);
  }

  /** A cursor code at the start of a record followed by plain text that fits after
      the code's column: everything is copied and no line feed is injected. */
  lemma CodeThenPlain(x: Code, b: string, width: int)
    requires Canonical(x) && Plain(b)
    requires Effect(x, 0) + |b| <= width
    ensures Record(Print(x) + b, width) == Print(x) + b + [NL]
  {
    var t := Print(x);
    var ub := Ordinaries(b);
    ScanCodeThen(x, b);
    MoveOfPrint(x, 0);
    assert Run([Esc(t)], 0, width) == Emitted([Echo(Esc(t))], Effect(x, 0)) by {
      assert [Esc(t)][1..] == [];
    }
    RunAppend([Esc(t)], ub, 0, width);
    RunFits(b, Effect(x, 0), width);
    RenderAppend([Echo(Esc(t))], Run(ub, Effect(x, 0), width).emits);
    assert Render([Echo(Esc(t))]) == t;
  }

  /** `ESC[2C` then "ab": the code moves the column to 2, the letters take it to 4, no break. */
  lemma ForwardExample(s: string)
    requires s == [ESC, '[', '2', 'C', 'a', 'b']
    ensures Record(s, 5) == s + [NL]
  {
    var x := Code("2", false, "", 'C');
    assert Print(x) + "ab" == s;
    assert Value("2") == 2 by {
      assert "2"[..0] == [];
    }
    assert Plain("ab");
    CodeThenPlain(x, "ab", 5);
  }

  /** `ESC[0G` puts the column at -1 (the digit string "0" counts as present), so six
      letters then share one output line of width 5. */
  lemma ZeroColumnExample(s: string)
    requires s == [ESC, '[', '0', 'G', 'a', 'b', 'c', 'd', 'e', 'f']
    ensures Record(s, 5) == s + [NL]
  {
    var x := Code("0", false, "", 'G');
    assert Print(x) + "abcdef" == s;
    assert Value("0") == 0 by {
      assert "0"[..0] == [];
    }
    assert Plain("abcdef");
    CodeThenPlain(x, "abcdef", 5);
  }

  /** `ESC[12H` also reads as the groups `1` and `2`, which would put the column at 1;
      the match returned is the greedy one, with no column group, so the column stays. */
  lemma TwelveH()
    ensures Print(Code("1", false, "2", 'H')) == Print(Code("12", false, "", 'H'))
    ensures Match(Print(Code("1", false, "2", 'H'))) == Some(Code("12", false, "", 'H'))
    ensures Move(Print(Code("1", false, "2", 'H')), 7) == 7
  {
    var t := Print(Code("1", false, "2", 'H'));
    assert t == [ESC, '[', '1', '2', 'H'];
    assert SpanDigits(t, 2) == 4;
    assert SpanDigits(t, 4) == 4;
    assert t[2..4] == "12" && t[4..4] == "";
    MoveOfPrint(Code("12", false, "", 'H'), 7);
  }
}
