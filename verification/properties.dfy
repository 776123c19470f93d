/**
 What the re-wrapper promises about a whole record and a whole input: plain text
 is cut into chunks of exactly `width` characters, no character is lost or
 moved, escape tokens come out whole, a token cut off by the end of the record
 is copied verbatim, and plain text already wrapped is wrapped again unchanged
 apart from the final line feed.
 */
module WrapProperties {
  import opened Records
  import opened Scanner
  import opened Tracker

  /** Text with no escape, tab or backspace: every character is ordinary. */
  predicate Plain(s: string)
  {
    forall m :: 0 <= m < |s| ==> s[m] != ESC && s[m] != TAB && s[m] != BS
  }

  /** `s` cut into consecutive pieces of `width` characters, the last one possibly shorter. */
  function Chunks(s: string, width: int): (cs: seq<string>)
    requires width >= 1
    ensures |cs| >= 1
    ensures forall i :: 0 <= i < |cs| ==> |cs[i]| <= width
    decreases |s|
  {
    if |s| <= width then [s] else [s[..width]] + Chunks(s[width..], width)
  }

  /** The chunks of every record of a list, in order. */
  function AllChunks(rs: seq<string>, width: int): seq<string>
    requires width >= 1
  {
    if rs == [] then [] else Chunks(rs[0], width) + AllChunks(rs[1..], width)
  }

  /** The units of plain text are its characters, each one ordinary. */
  function Ordinaries(s: string): seq<Unit>
  {
    seq(|s|, i requires 0 <= i < |s| => Ordinary(s[i]))
  }

  lemma {:induction false} ScanPlain(s: string)
    requires Plain(s)
    ensures Scan(s) == Ordinaries(s)
    decreases |s|
  {
    if s != [] {
      assert Lead(s) == Ordinary(s[0]);
      ScanPlain(s[1..]);
    }
  }

  /** Plain text in front of anything is scanned character by character first. */
  lemma ScanPlainThen(a: string, q: string)
    requires Plain(a)
    ensures Scan(a + q) == Ordinaries(a) + Scan(q)
  {
    ScanPlain(a);
    ScanAppend(a, q);
  }

  lemma OrdinariesAppend(a: string, b: string)
    ensures Ordinaries(a + b) == Ordinaries(a) + Ordinaries(b)
  {
  }

  /** Plain text that fits in the rest of the line is copied and moves the column by its length. */
  lemma {:induction false} RunFits(s: string, col: int, width: int)
    requires col + |s| <= width
    ensures Render(Run(Ordinaries(s), col, width).emits) == s
    ensures Run(Ordinaries(s), col, width).col == col + |s|
    decreases |s|
  {
    if s != [] {
      var us := Ordinaries(s);
      assert us[1..] == Ordinaries(s[1..]);
      RunFits(s[1..], col + 1, width);
      assert s == [s[0]] + s[1..];
    }
  }

  /** Plain text met at or beyond the width starts with an injected line feed and then
      goes on as from column 0. */
  lemma AtWidth(s: string, col: int, width: int)
    requires width >= 1 && |s| >= 1 && col >= width
    ensures Render(Run(Ordinaries(s), col, width).emits) == [NL] + Render(Run(Ordinaries(s), 0, width).emits)
    ensures Run(Ordinaries(s), col, width).col == Run(Ordinaries(s), 0, width).col
  {
    var us := Ordinaries(s);
    var rest := Run(us[1..], 1, width);
    assert Run(us, col, width) == Emitted([Break, Echo(us[0])] + rest.emits, rest.col);
    assert Run(us, 0, width) == Emitted([Echo(us[0])] + rest.emits, rest.col);
    RenderAppend([Break, Echo(us[0])], rest.emits);
    RenderAppend([Echo(us[0])], rest.emits);
  }

  /** Plain text from column 0 comes out as its chunks with one line feed between neighbours. */
  lemma {:induction false} PlainRun(s: string, width: int)
    requires width >= 1
    ensures Render(Run(Ordinaries(s), 0, width).emits) == Join(Chunks(s, width))
    decreases |s|
  {
    if |s| <= width {
      RunFits(s, 0, width);
    } else {
      var a, b := s[..width], s[width..];
      assert s == a + b;
      OrdinariesAppend(a, b);
      RunAppend(Ordinaries(a), Ordinaries(b), 0, width);
      RunFits(a, 0, width);
      AtWidth(b, width, width);
      RenderAppend(Run(Ordinaries(a), 0, width).emits, Run(Ordinaries(b), width, width).emits);
      PlainRun(b, width);
      assert Chunks(s, width) == [a] + Chunks(b, width);
      assert ([a] + Chunks(b, width))[1..] == Chunks(b, width);
    }
  }

  /** A record with no escape, tab or backspace comes out as consecutive chunks of
      `width` characters joined by line feeds, plus the record's final line feed. */
  lemma PlainRecordChunks(s: string, width: int)
    requires width >= 1 && Plain(s)
    ensures Record(s, width) == Join(Chunks(s, width)) + [NL]
  {
    ScanPlain(s);
    PlainRun(s, width);
  }

  /** Chunks keep what holds of every character of the text they cut. */
  lemma {:induction false} ChunksPlain(s: string, width: int)
    requires width >= 1 && Plain(s) && NL !in s
    ensures forall i :: 0 <= i < |Chunks(s, width)| ==> Plain(Chunks(s, width)[i]) && NL !in Chunks(s, width)[i]
    decreases |s|
  {
    if |s| > width {
      ChunksPlain(s[width..], width);
      assert NL !in s[..width] by {
        assert forall m :: 0 <= m < width ==> s[..width][m] == s[m];
      }
    }
  }

  /** No physical line of the output of a plain record is longer than the width. */
  lemma PlainLinesFit(s: string, width: int)
    requires width >= 1 && Plain(s) && NL !in s
    ensures forall i :: 0 <= i < |Split(Record(s, width))| ==> |Split(Record(s, width))[i]| <= width
  {
    var cs := Chunks(s, width);
    var lines := cs + [""];
    PlainRecordChunks(s, width);
    JoinAppend(cs, [""]);
    assert Record(s, width) == Join(lines);
    ChunksPlain(s, width);
    forall i | 0 <= i < |lines|
      ensures NL !in lines[i] && |lines[i]| <= width
    {
      if i < |cs| {
        assert lines[i] == cs[i];
      }
    }
    SplitJoin(lines);
  }

  /** One record's output with line feeds deleted is the record with line feeds deleted,
      and it holds one line feed per injected break more than the record does. */
  lemma BodyText(s: string, width: int)
    ensures Without(Body(s, width), NL) == Without(s, NL)
    ensures Count(Body(s, width), NL) == Count(s, NL) + Breaks(Run(Scan(s), 0, width).emits)
  {
    var es := Run(Scan(s), 0, width).emits;
    RenderText(es);
    RunKeepsUnits(Scan(s), 0, width);
    FlattenScan(s);
  }

  lemma {:induction false} WrapAllText(rs: seq<string>, width: int)
    requires |rs| >= 1
    ensures Without(WrapAll(rs, width), NL) == Without(Join(rs), NL)
    ensures Count(WrapAll(rs, width), NL) == Count(Join(rs), NL) + 1 + Injected(rs, width)
  {
    var r := rs[0];
    BodyText(r, width);
    WithoutAppend(Body(r, width), [NL], NL);
    CountAppend(Body(r, width), [NL], NL);
    if |rs| == 1 {
      assert WrapAll(rs, width) == Record(r, width) by {
        assert rs[1..] == [];
      }
    } else {
      var rest := rs[1..];
      WrapAllText(rest, width);
      WithoutAppend(Record(r, width), WrapAll(rest, width), NL);
      CountAppend(Record(r, width), WrapAll(rest, width), NL);
      WithoutAppend(r + [NL], Join(rest), NL);
      CountAppend(r + [NL], Join(rest), NL);
      WithoutAppend(r, [NL], NL);
      CountAppend(r, [NL], NL);
    }
  }

  /** Content is preserved: deleting every line feed from the output gives the input
      with every line feed deleted. */
  lemma RewrapKeepsText(data: string, width: int)
    ensures Without(Rewrap(data, width), NL) == Without(data, NL)
  {
    WrapAllText(Split(data), width);
    JoinSplit(data);
  }

  /** The output has the input's line feeds, one more for the last record, and one per
      injected break; so every record boundary survives. */
  lemma RewrapLineCount(data: string, width: int)
    ensures Count(Rewrap(data, width), NL) == Count(data, NL) + 1 + Injected(Split(data), width)
    ensures Count(Rewrap(data, width), NL) >= |Split(data)|
  {
    WrapAllText(Split(data), width);
    JoinSplit(data);
    SplitCount(data);
  }

  /** The writes of a run, cut around its `k`-th unit. */
  lemma RunAround(us: seq<Unit>, k: nat, col: int, width: int)
    requires k < |us|
    ensures var ra := Run(us[..k], col, width);
            var su := Step(us[k], ra.col, width);
            Run(us, col, width).emits == ra.emits + su.emits + Run(us[k + 1..], su.col, width).emits
  {
    var a, u, b := us[..k], us[k], us[k + 1..];
    assert us == a + ([u] + b);
    var ra := Run(a, col, width);
    RunAppend(a, [u] + b, col, width);
    assert ([u] + b)[1..] == b;
  }

  /** An escape token comes out whole: the record's output is some text, the token
      unchanged, then the rest, and the text before it is exactly the units before
      it with some line feeds injected. */
  lemma EscapeTokenIntact(s: string, width: int, k: nat) returns (pre: string, post: string)
    requires k < |Scan(s)| && Scan(s)[k].Esc?
    ensures Body(s, width) == pre + Scan(s)[k].token + post
    ensures Without(pre, NL) == Without(Flatten(Scan(s)[..k]), NL)
    ensures Without(post, NL) == Without(Flatten(Scan(s)[k + 1..]), NL)
  {
    var us := Scan(s);
    var u := us[k];
    var ra := Run(us[..k], 0, width);
    var su := Step(u, ra.col, width);
    var eb := Run(us[k + 1..], su.col, width).emits;
    RunAround(us, k, 0, width);
    assert su.emits == [Echo(u)];
    RenderAppend(ra.emits + su.emits, eb);
    RenderAppend(ra.emits, su.emits);
    assert Render(su.emits) == u.token by {
      assert su.emits[1..] == [];
    }
    pre, post := Render(ra.emits), Render(eb);
    RenderText(ra.emits);
    RunKeepsUnits(us[..k], 0, width);
    RenderText(eb);
    RunKeepsUnits(us[k + 1..], su.col, width);
  }

  /** An ESC with no letter after it in the record: everything from it to the end of
      the record is copied verbatim, the column does not change, and the record's
      line feed follows. */
  lemma UnterminatedTail(p: string, q: string, width: int)
    requires forall k :: 0 <= k < |Scan(p)| ==> Closed(Scan(p)[k])
    requires |q| >= 1 && q[0] == ESC
    requires forall m :: 1 <= m < |q| ==> !IsAlpha(q[m])
    ensures Record(p + q, width) == Body(p, width) + q + [NL]
    ensures Run(Scan(p + q), 0, width).col == Run(Scan(p), 0, width).col
  {
    ScanAppend(p, q);
    UnterminatedToken(q);
    var ra := Run(Scan(p), 0, width);
    RunAppend(Scan(p), [Esc(q)], 0, width);
    assert Run([Esc(q)], ra.col, width) == Emitted([Echo(Esc(q))], ra.col) by {
      assert [Esc(q)][1..] == [];
    }
    RenderAppend(ra.emits, [Echo(Esc(q))]);
    assert Render([Echo(Esc(q))]) == q;
    assert Body(p + q, width) == Body(p, width) + q;
  }

  /** The output for plain records is the join of all their chunks, plus a final line feed. */
  lemma {:induction false} WrapAllPlain(rs: seq<string>, width: int)
    requires width >= 1 && |rs| >= 1
    requires forall i :: 0 <= i < |rs| ==> Plain(rs[i])
    ensures WrapAll(rs, width) == Join(AllChunks(rs, width)) + [NL]
  {
    PlainRecordChunks(rs[0], width);
    if |rs| == 1 {
      assert rs[1..] == [];
      assert WrapAll(rs[1..], width) == "";
      assert WrapAll(rs, width) == Record(rs[0], width) + "";
      assert AllChunks(rs[1..], width) == [];
      assert AllChunks(rs, width) == Chunks(rs[0], width) + [];
      assert Chunks(rs[0], width) + [] == Chunks(rs[0], width);
    } else {
      WrapAllPlain(rs[1..], width);
      JoinAppend(Chunks(rs[0], width), AllChunks(rs[1..], width));
    }
  }

  lemma {:induction false} AllChunksShape(rs: seq<string>, width: int)
    requires width >= 1
    requires forall i :: 0 <= i < |rs| ==> Plain(rs[i]) && NL !in rs[i]
    ensures |rs| >= 1 ==> |AllChunks(rs, width)| >= 1
    ensures forall i :: 0 <= i < |AllChunks(rs, width)| ==>
              var x := AllChunks(rs, width)[i]; Plain(x) && NL !in x && |x| <= width
  {
    if rs != [] {
      ChunksPlain(rs[0], width);
      AllChunksShape(rs[1..], width);
    }
  }

  /** Lines that already fit are their own chunks. */
  lemma {:induction false} AllChunksFit(xs: seq<string>, width: int)
    requires width >= 1
    requires forall i :: 0 <= i < |xs| ==> |xs[i]| <= width
    ensures AllChunks(xs, width) == xs
  {
    if xs != [] {
      AllChunksFit(xs[1..], width);
      assert xs == [xs[0]] + xs[1..];
    }
  }

  /** Re-wrapping plain output at the same width changes nothing but adds one final
      line feed: every line already fits, and the last (empty) record gains its own
      line feed. */
  lemma RewrapPlainTwice(data: string, width: int)
    requires width >= 1 && Plain(data)
    ensures Rewrap(Rewrap(data, width), width) == Rewrap(data, width) + [NL]
  {
    var rs := Split(data);
    assert forall i :: 0 <= i < |rs| ==> Plain(rs[i]) by {
      RecordsPlain(data);
    }
    SplitLineFree(data);
    WrapAllPlain(rs, width);
    AllChunksShape(rs, width);
    var lines := AllChunks(rs, width) + [""];
    JoinAppend(AllChunks(rs, width), [""]);
    assert Rewrap(data, width) == Join(lines);
    assert forall i :: 0 <= i < |lines| ==> NL !in lines[i] && Plain(lines[i]) && |lines[i]| <= width by {
      forall i | 0 <= i < |lines|
        ensures NL !in lines[i] && Plain(lines[i]) && |lines[i]| <= width
      {
        if i < |lines| - 1 {
          assert lines[i] == AllChunks(rs, width)[i];
        }
      }
    }
    SplitJoin(lines);
    WrapAllPlain(lines, width);
    AllChunksFit(lines, width);
  }

  /** The records of plain text are plain. */
  lemma {:induction false} RecordsPlain(data: string)
    requires Plain(data)
    ensures forall i :: 0 <= i < |Split(data)| ==> Plain(Split(data)[i])
    decreases |data|
  {
    var k := IndexOf(data, NL);
    if k < |data| {
      RecordsPlain(data[k + 1..]);
    }
  }
}
