/**
 The column tracker and wrap rule (ansi-wrap.py lines 11-69). Each record starts
 at column 0; its units are handled left to right; a line feed is injected only
 before an ordinary character found at or beyond the width, and every record
 ends with one line feed. The output is kept as the list of writes the program
 makes, so that what was injected stays distinguishable from what was copied.
 */
module Tracker {
  import opened Records
  import opened Scanner
  import opened CursorCodes

  /** One write to the output: an injected line feed, or a unit copied verbatim. */
  datatype Emit = Break | Echo(unit: Unit)

  /** The writes made for some units and the column reached after them. */
  datatype Emitted = Emitted(emits: seq<Emit>, col: int)

  /** The next tab stop (line 52). Python's `//` floors; with the positive divisor 8
      Dafny's Euclidean `/` gives the same quotient, also for column -1. */
  function TabStop(col: int): (r: int)
    ensures r % 8 == 0
    ensures col < r <= col + 8
  {
    (col / 8 + 1) * 8
  }

  /** The tab stop is the least multiple of 8 strictly right of the column. */
  lemma TabStopLeast(col: int, m: int)
    requires m % 8 == 0 && m > col
    ensures TabStop(col) <= m
  {
  }

  /** A tab moves to the next multiple of 8 (so from column -1 to 0) and a backspace
      moves one column left but not below 0; neither is ever preceded by a break. */
  lemma ControlColumns(col: int, width: int)
    ensures var c := Step(Tab, col, width).col;
            c % 8 == 0 && col < c <= col + 8 && (col == -1 ==> c == 0)
    ensures Step(Backspace, col, width).col == if col >= 1 then col - 1 else 0
    ensures Step(Tab, col, width).emits == [Echo(Tab)]
    ensures Step(Backspace, col, width).emits == [Echo(Backspace)]
  {
  }

  /** The writes and new column for one unit at column `col`. */
  function Step(u: Unit, col: int, width: int): (r: Emitted)
    ensures r.emits == [Echo(u)] || r.emits == [Break, Echo(u)]
    ensures r.emits[0] == Break <==> u.Ordinary? && col >= width
    ensures col >= -1 ==> r.col >= -1
  {
    match u
    case Esc(t) => Emitted([Echo(u)], Move(t, col))
    case Tab => Emitted([Echo(u)], TabStop(col))
    case Backspace => Emitted([Echo(u)], if col - 1 > 0 then col - 1 else 0)
    case Ordinary(_) =>
      if col >= width then Emitted([Break, Echo(u)], 1) else Emitted([Echo(u)], col + 1)
  }

  /** The writes for a unit sequence started at column `col`. */
  function Run(us: seq<Unit>, col: int, width: int): (r: Emitted)
    ensures col >= -1 ==> r.col >= -1
    decreases |us|
  {
    if us == [] then Emitted([], col)
    else
      var s := Step(us[0], col, width);
      var rest := Run(us[1..], s.col, width);
      Emitted(s.emits + rest.emits, rest.col)
  }

  /** The characters one write puts on the output. */
  function Written(e: Emit): string
  {
    match e
    case Break => [NL]
    case Echo(u) => Text(u)
  }

  /** The characters the writes put on the output. */
  function Render(es: seq<Emit>): string
  {
    if es == [] then "" else Written(es[0]) + Render(es[1..])
  }

  /** The unit one write copies, if any. */
  function Copied(e: Emit): seq<Unit>
  {
    match e
    case Break => []
    case Echo(u) => [u]
  }

  /** The copied units, with the injected line feeds dropped. */
  function Echoes(es: seq<Emit>): seq<Unit>
  {
    if es == [] then [] else Copied(es[0]) + Echoes(es[1..])
  }

  /** The number of injected line feeds. */
  function Breaks(es: seq<Emit>): nat
  {
    if es == [] then 0 else (if es[0].Break? then 1 else 0) + Breaks(es[1..])
  }

  /** The output for a record without its final line feed. */
  function Body(s: string, width: int): string
  {
    Render(Run(Scan(s), 0, width).emits)
  }

  /** The output for one record (lines 12-69): it always ends in a line feed. */
  function Record(s: string, width: int): (r: string)
    ensures |r| >= 1 && r[|r| - 1] == NL
  {
    Body(s, width) + [NL]
  }

  /** The output for a list of records, one after another. */
  function WrapAll(rs: seq<string>, width: int): string
  {
    if rs == [] then "" else Record(rs[0], width) + WrapAll(rs[1..], width)
  }

  /** The output for a non-empty list of records ends in a line feed, that of the
      last record. */
  lemma {:induction false} WrapAllEnds(rs: seq<string>, width: int)
    requires rs != []
    ensures var r := WrapAll(rs, width); |r| >= |rs| && r[|r| - 1] == NL
  {
    if |rs| > 1 {
      WrapAllEnds(rs[1..], width);
    }
  }

  /** The output of the whole program for input `data` (lines 9-69): never empty, and
      always ending in a line feed, even for empty input. */
  function Rewrap(data: string, width: int): (r: string)
    ensures |r| >= 1 && r[|r| - 1] == NL
  {
    WrapAllEnds(Split(data), width);
    WrapAll(Split(data), width)
  }

  /** The line feeds injected over a list of records. */
  function Injected(rs: seq<string>, width: int): nat
  {
    if rs == [] then 0 else Breaks(Run(Scan(rs[0]), 0, width).emits) + Injected(rs[1..], width)
  }

  lemma {:induction false} RenderAppend(a: seq<Emit>, b: seq<Emit>)
    ensures Render(a + b) == Render(a) + Render(b)
  {
    if a == [] {
      assert a + b == b;
    } else {
      assert (a + b)[1..] == a[1..] + b;
      RenderAppend(a[1..], b);
    }
  }

  lemma {:induction false} EchoesAppend(a: seq<Emit>, b: seq<Emit>)
    ensures Echoes(a + b) == Echoes(a) + Echoes(b)
  {
    if a == [] {
      assert a + b == b;
    } else {
      assert (a + b)[1..] == a[1..] + b;
      EchoesAppend(a[1..], b);
    }
  }

  /** Running two unit sequences one after the other is running their concatenation. */
  lemma {:induction false} RunAppend(a: seq<Unit>, b: seq<Unit>, col: int, width: int)
    ensures var ra := Run(a, col, width);
            var rb := Run(b, ra.col, width);
            Run(a + b, col, width) == Emitted(ra.emits + rb.emits, rb.col)
    decreases |a|
  {
    if a == [] {
      assert a + b == b;
    } else {
      assert (a + b)[1..] == a[1..] + b;
      RunAppend(a[1..], b, Step(a[0], col, width).col, width);
    }
  }

  /** Nothing is lost, added or reordered: dropping the injected line feeds leaves the units. */
  lemma {:induction false} RunKeepsUnits(us: seq<Unit>, col: int, width: int)
    ensures Echoes(Run(us, col, width).emits) == us
    decreases |us|
  {
    if us != [] {
      var s := Step(us[0], col, width);
      RunKeepsUnits(us[1..], s.col, width);
      EchoesAppend(s.emits, Run(us[1..], s.col, width).emits);
      assert Echoes(s.emits) == [us[0]] by {
        if s.emits != [Echo(us[0])] {
          assert s.emits[1..] == [Echo(us[0])];
        }
      }
    }
  }

  /** Every injected line feed is immediately followed by an ordinary character. */
  ghost predicate BreaksBeforeOrdinary(es: seq<Emit>)
  {
    forall m :: 0 <= m < |es| && es[m].Break? ==> m + 1 < |es| && es[m + 1].Echo? && es[m + 1].unit.Ordinary?
  }

  lemma {:induction false} RunBreaksBeforeOrdinary(us: seq<Unit>, col: int, width: int)
    ensures BreaksBeforeOrdinary(Run(us, col, width).emits)
    decreases |us|
  {
    if us != [] {
      var s := Step(us[0], col, width);
      var rest := Run(us[1..], s.col, width).emits;
      RunBreaksBeforeOrdinary(us[1..], s.col, width);
      var es := s.emits + rest;
      forall m | 0 <= m < |es| && es[m].Break?
        ensures m + 1 < |es| && es[m + 1].Echo? && es[m + 1].unit.Ordinary?
      {
        if m >= |s.emits| {
          assert es[m] == rest[m - |s.emits|];
          assert es[m + 1] == rest[m + 1 - |s.emits|];
        }
      }
    }
  }

  /** The text written: with line feeds deleted it is the units' text with line feeds
      deleted, and it holds one line feed per injected break more than the units do. */
  lemma {:induction false} RenderText(es: seq<Emit>)
    ensures Without(Render(es), NL) == Without(Flatten(Echoes(es)), NL)
    ensures Count(Render(es), NL) == Count(Flatten(Echoes(es)), NL) + Breaks(es)
  {
    if es != [] {
      RenderText(es[1..]);
      var head := Written(es[0]);
      var units := Copied(es[0]);
      assert Render(es) == head + Render(es[1..]);
      assert Echoes(es) == units + Echoes(es[1..]);
      FlattenAppend(units, Echoes(es[1..]));
      WithoutAppend(head, Render(es[1..]), NL);
      CountAppend(head, Render(es[1..]), NL);
      WithoutAppend(Flatten(units), Flatten(Echoes(es[1..])), NL);
      CountAppend(Flatten(units), Flatten(Echoes(es[1..])), NL);
      if es[0].Echo? {
        assert Flatten(units) == head by {
          assert units[1..] == [];
        }
      }
    }
  }

  /** Right after an ordinary character the column is in [0, width]; it is 0 exactly
      when the character was written at column -1. */
  lemma OrdinaryColumn(c: char, col: int, width: int)
    requires width >= 1 && col >= -1
    ensures 0 <= Step(Ordinary(c), col, width).col <= width
    ensures Step(Ordinary(c), col, width).col == 0 <==> col == -1
  {
  }

  /** The same along a run: after every ordinary unit the column is in [0, width], and
      0 only when that unit was written at column -1. */
  lemma ColumnAfterOrdinary(us: seq<Unit>, col: int, width: int, k: nat)
    requires width >= 1 && col >= -1
    requires k < |us| && us[k].Ordinary?
    ensures 0 <= Run(us[..k + 1], col, width).col <= width
    ensures Run(us[..k + 1], col, width).col == 0 <==> Run(us[..k], col, width).col == -1
  {
    var before := Run(us[..k], col, width).col;
    assert us[..k + 1] == us[..k] + [us[k]];
    RunAppend(us[..k], [us[k]], col, width);
    assert Run([us[k]], before, width).col == Step(us[k], before, width).col by {
      assert [us[k]][1..] == [];
    }
    OrdinaryColumn(us[k].c, before, width);
  }

  /** The units that put the column at -1: `ESC[0G` and `ESC[r;0H` (or `f`), with any
      number of zeros, because the digit string "0" counts as present. */
  predicate ZeroColumnCode(u: Unit)
  {
    && u.Esc? && Terminated(u.token) && Match(u.token).Some?
    && var x := Match(u.token).value;
    || (x.cmd == 'G' && x.first != [] && Value(x.first) == 0)
    || ((x.cmd == 'H' || x.cmd == 'f') && x.second != [] && Value(x.second) == 0)
  }

  /** From column -1 or more, a unit leaves the column at -1 only when it was -1
      already, and a zero-column code always puts it there. */
  lemma MinusOneOnlyFromZeroCodes(u: Unit, col: int, width: int)
    requires col >= -1
    ensures ZeroColumnCode(u) ==> Step(u, col, width).col == -1
    ensures Step(u, col, width).col == -1 ==> col == -1 || ZeroColumnCode(u)
  {
  }

  /** A record with no zero-column code never sees a negative column. */
  lemma {:induction false} NoZeroCodesNoNegative(us: seq<Unit>, col: int, width: int)
    requires col >= 0
    requires forall k :: 0 <= k < |us| ==> !ZeroColumnCode(us[k])
    ensures Run(us, col, width).col >= 0
    decreases |us|
  {
    if us != [] {
      MinusOneOnlyFromZeroCodes(us[0], col, width);
      NoZeroCodesNoNegative(us[1..], Step(us[0], col, width).col, width);
    }
  }

  /** Without a zero-column code before it, an ordinary character leaves the column
      in [1, width]. */
  lemma ColumnAfterOrdinaryNoZero(us: seq<Unit>, width: int, k: nat)
    requires width >= 1
    requires k < |us| && us[k].Ordinary?
    requires forall m :: 0 <= m < k ==> !ZeroColumnCode(us[m])
    ensures 1 <= Run(us[..k + 1], 0, width).col <= width
  {
    NoZeroCodesNoNegative(us[..k], 0, width);
    ColumnAfterOrdinary(us, 0, width, k);
  }
}
