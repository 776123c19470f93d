/**
 The cursor-sequence classifier (ansi-wrap.py lines 27-43). Line 29 matches the
 pattern `ESC '[' digits? ';'? digits? cmd` with `cmd` one of H f A B C D E F G
 against the front of an escape token; here that match is an explicit parser.
 Digit groups are ASCII digits, read in decimal as Python's `int` reads them.
 */
module CursorCodes {
  import opened Scanner

  datatype Option<T> = None | Some(value: T)

  predicate IsDigit(c: char)
  {
    '0' <= c <= '9'
  }

  predicate AllDigits(d: string)
  {
    forall m :: 0 <= m < |d| ==> IsDigit(d[m])
  }

  /** The decimal value of a digit string; leading zeros are allowed, as in `int("007")`.
      The value is 0 exactly when every digit is `0`, as for `"0"` and `"00"`. */
  function Value(d: string): (n: nat)
    requires AllDigits(d)
    ensures n == 0 <==> forall m :: 0 <= m < |d| ==> d[m] == '0'
  {
    if d == [] then 0 else Value(d[..|d| - 1]) * 10 + (d[|d| - 1] as int - '0' as int)
  }

  /** A parameter as lines 31-32 read it: an absent (empty) group counts as 1, so the
      parameter is 0 only for a group that is present and all zeros. */
  function Param(d: string): (n: nat)
    requires AllDigits(d)
    ensures n == 0 <==> d != [] && forall m :: 0 <= m < |d| ==> d[m] == '0'
  {
    if d == [] then 1 else Value(d)
  }

  predicate IsCommand(c: char)
  {
    c in "HfABCDEFG"
  }

  /** One match of the pattern: the two digit groups (empty when the group did not
      take part), whether the `;` was there, and the command letter. */
  datatype Code = Code(first: string, semi: bool, second: string, cmd: char)

  /** The codes a match can produce. Without a `;` the first group takes every digit,
      so the second group is empty. */
  predicate Canonical(x: Code)
  {
    AllDigits(x.first) && AllDigits(x.second) && IsCommand(x.cmd) && (!x.semi ==> x.second == [])
  }

  /** The characters a code stands for. */
  function Print(x: Code): string
  {
    [ESC, '['] + x.first + (if x.semi then [';'] else []) + x.second + [x.cmd]
  }

  /** The end of the run of digits of `t` that starts at `j`. */
  function SpanDigits(t: string, j: nat): (k: nat)
    requires j <= |t|
    ensures j <= k <= |t|
    ensures k < |t| ==> !IsDigit(t[k])
    ensures forall m :: j <= m < k ==> IsDigit(t[m])
    decreases |t| - j
  {
    if j == |t| || !IsDigit(t[j]) then j else SpanDigits(t, j + 1)
  }

  /**
   `re.match` of the pattern against `t`: anchored at the front, free to stop
   before the end. Other splits of the digits can match too (`ESC[12H` also reads
   as groups `1` and `2`), but the regular-expression engine tries the greedy
   reading first (the first group takes every digit, then the `;` if there is
   one, then the second group every digit) and returns the first reading that
   succeeds. The greedy reading succeeds whenever any reading does
   (`MatchGreedy`), so it is the one returned.
   */
  function Match(t: string): (r: Option<Code>)
    ensures r.Some? ==> Canonical(r.value)
  {
    if |t| < 2 || t[0] != ESC || t[1] != '[' then None
    else
      var a := SpanDigits(t, 2);
      var semi := a < |t| && t[a] == ';';
      var b := if semi then a + 1 else a;
      var c := SpanDigits(t, b);
      if c < |t| && IsCommand(t[c]) then Some(Code(t[2..a], semi, t[b..c], t[c]))
      else None
  }

  /** A match spells out a prefix of the token: the pattern consumes exactly the
      characters of the code it yields. */
  lemma MatchPrefix(t: string)
    requires Match(t).Some?
    ensures var x := Match(t).value;
            |Print(x)| <= |t| && t[..|Print(x)|] == Print(x)
  {
    var a := SpanDigits(t, 2);
    var semi := a < |t| && t[a] == ';';
    var b := if semi then a + 1 else a;
    var c := SpanDigits(t, b);
    Pieces(t, a, b, c);
    assert t[..2] == [ESC, '['];
    assert t[a..b] == if semi then [';'] else [];
  }

  /** Whenever some split of the digits matches the front of a token, the greedy
      reading matches too and consumes the same characters. */
  lemma MatchGreedy(x: Code, rest: string)
    requires AllDigits(x.first) && AllDigits(x.second) && IsCommand(x.cmd)
    ensures Match(Print(x) + rest).Some?
    ensures Print(Match(Print(x) + rest).value) == Print(x)
    ensures Match(Print(x) + rest).value
            == if x.semi then x else Code(x.first + x.second, false, "", x.cmd)
  {
    var g := if x.semi then x else Code(x.first + x.second, false, "", x.cmd);
    assert Print(g) == Print(x);
    MatchPrint(g, rest);
  }

  /** A prefix of `t` cut into the pieces a match reads. */
  lemma Pieces(t: string, a: nat, b: nat, c: nat)
    requires 2 <= a <= b <= c < |t|
    ensures t[..c + 1] == t[..2] + t[2..a] + t[a..b] + t[b..c] + [t[c]]
  {
  }

  /** The column after a matched code (lines 31-43): C moves right, D moves left but
      not past column 0, G sets the column, H and f set it only when the column
      parameter is present; A, B, E and F leave it alone. */
  function Effect(x: Code, col: int): (r: int)
    requires Canonical(x)
    ensures col >= -1 ==> r >= -1
  {
    var n1 := Param(x.first);
    if x.cmd == 'C' then col + n1
    else if x.cmd == 'D' then (if col - n1 > 0 then col - n1 else 0)
    else if x.cmd == 'G' then n1 - 1
    else if x.cmd == 'H' || x.cmd == 'f' then (if x.second != [] then Value(x.second) - 1 else col)
    else col
  }

  /** The column after the pattern is tried on the escape token `t` (lines 29-43):
      the effect of the match, or no change when there is none. */
  function Classify(t: string, col: int): (r: int)
    ensures col >= -1 ==> r >= -1
  {
    match Match(t)
    case None => col
    case Some(x) => Effect(x, col)
  }

  /** The column after the escape token `t` (lines 27-43): the pattern is tried only
      when the token ended in a letter. */
  function Move(t: string, col: int): (r: int)
    ensures col >= -1 ==> r >= -1
  {
    if Terminated(t) then Classify(t, col) else col
  }

  /** The pattern matches a printed code, whatever follows it, and yields that code. */
  lemma MatchPrint(x: Code, rest: string)
    requires Canonical(x)
    ensures Match(Print(x) + rest) == Some(x)
  {
    var t := Print(x) + rest;
    var a := 2 + |x.first|;
    assert t[..a] == [ESC, '['] + x.first;
    assert t[a] == if x.semi then ';' else x.cmd;
    assert SpanDigits(t, 2) == a;
    var b := if x.semi then a + 1 else a;
    var c := b + |x.second|;
    assert t[b..c] == x.second;
    assert t[c] == x.cmd;
    assert SpanDigits(t, b) == c;
    assert x.semi <==> t[a] == ';';
  }

  /** On an escape token as the scanner cuts it, a match covers the whole token:
      its only letter is its last character. */
  lemma MatchCoversToken(t: string)
    requires WellFormed(Esc(t))
    requires Match(t).Some?
    ensures Print(Match(t).value) == t
  {
    var x := Match(t).value;
    MatchPrefix(t);
    var n := |Print(x)|;
    assert t[n - 1] == x.cmd;
    assert IsAlpha(x.cmd);
    assert n == |t|;
    assert t == t[..n];
  }

  /** A printed code is a terminated escape token. */
  lemma PrintTerminated(x: Code)
    requires Canonical(x)
    ensures Terminated(Print(x))
    ensures WellFormed(Esc(Print(x)))
  {
    var t := Print(x);
    forall m | 1 <= m < |t| - 1
      ensures !IsAlpha(t[m])
    {
      if 2 <= m < 2 + |x.first| {
        assert t[m] == x.first[m - 2];
      } else if m >= 2 + |x.first| + (if x.semi then 1 else 0) {
        assert t[m] == x.second[m - 2 - |x.first| - (if x.semi then 1 else 0)];
      }
    }
  }

  lemma MoveOfPrint(x: Code, col: int)
    requires Canonical(x)
    ensures Move(Print(x), col) == Effect(x, col)
  {
    PrintTerminated(x);
    MatchPrint(x, []);
    assert Print(x) + [] == Print(x);
  }

  /** `ESC[nC`, with or without a second group: the column moves right by n, 1 when n is absent. */
  lemma CursorForward(x: Code, col: int)
    requires Canonical(x) && x.cmd == 'C'
    ensures Move(Print(x), col) == col + Param(x.first)
    ensures x.first == [] ==> Move(Print(x), col) == col + 1
  {
    MoveOfPrint(x, col);
  }

  /** `ESC[nD`: the column moves left by n but never below 0. */
  lemma CursorBackward(x: Code, col: int)
    requires Canonical(x) && x.cmd == 'D'
    ensures Move(Print(x), col) >= 0
    ensures Move(Print(x), col) == if col - Param(x.first) > 0 then col - Param(x.first) else 0
  {
    MoveOfPrint(x, col);
  }

  /** `ESC[nG`: the column becomes n - 1, whatever it was. */
  lemma CursorColumn(x: Code, col: int)
    requires Canonical(x) && x.cmd == 'G'
    ensures Move(Print(x), col) == Param(x.first) - 1
  {
    MoveOfPrint(x, col);
  }

  /** `ESC[r;cH` and `ESC[r;cf` set the column to c - 1; without the column group
      (`ESC[5H`, `ESC[5;H`) the column is left as it was. */
  lemma CursorPosition(x: Code, col: int)
    requires Canonical(x) && (x.cmd == 'H' || x.cmd == 'f')
    ensures x.second != [] ==> Move(Print(x), col) == Value(x.second) - 1
    ensures x.second == [] ==> Move(Print(x), col) == col
  {
    MoveOfPrint(x, col);
  }

  /** The row movements A, B, E and F leave the column alone. */
  lemma RowMovesKeepColumn(x: Code, col: int)
    requires Canonical(x) && (x.cmd == 'A' || x.cmd == 'B' || x.cmd == 'E' || x.cmd == 'F')
    ensures Move(Print(x), col) == col
  {
    MoveOfPrint(x, col);
  }

  /** Tokens the pattern does not match leave the column alone: a private mode
      switch, a three-parameter position, a two-character escape, and a token cut
      off by the end of the record. */
  lemma UnmatchedTokens(col: int)
    ensures Move([ESC, '[', '?', '2', '5', 'h'], col) == col
    ensures Move([ESC, '[', '1', ';', '2', ';', '3', 'H'], col) == col
    ensures Move([ESC, 'M'], col) == col
    ensures Move([ESC, '[', '1', '2'], col) == col
  {
    var t1: string := [ESC, '[', '?', '2', '5', 'h'];
    assert SpanDigits(t1, 2) == 2;
    var t2: string := [ESC, '[', '1', ';', '2', ';', '3', 'H'];
    assert SpanDigits(t2, 2) == 3;
    assert SpanDigits(t2, 4) == 5;
    assert !Terminated([ESC, '[', '1', '2']);
  }
}
