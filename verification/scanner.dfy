/**
 The scanner of one record (ansi-wrap.py lines 14-24, 47-68): it cuts the record
 into units, each of which the column tracker handles atomically. An ESC starts a
 token that runs through the first letter after it, or to the end of the record
 when no letter follows; a tab, a backspace and any other character are one unit
 each.
 */
module Scanner {

  const ESC: char := '\U{1B}'
  const TAB: char := '\t'
  const BS: char := '\U{8}'

  /** ASCII letters: the model's reading of Python's `str.isalpha`. */
  predicate IsAlpha(c: char)
  {
    'a' <= c <= 'z' || 'A' <= c <= 'Z'
  }

  datatype Unit = Esc(token: string) | Tab | Backspace | Ordinary(c: char)

  /** The characters a unit stands for, which are also what is written for it. */
  function Text(u: Unit): string
  {
    match u
    case Esc(t) => t
    case Tab => [TAB]
    case Backspace => [BS]
    case Ordinary(c) => [c]
  }

  /** An escape token whose final character is the letter that ended it. */
  predicate Terminated(t: string)
  {
    |t| >= 2 && IsAlpha(t[|t| - 1])
  }

  /** A unit the scanner can produce: a token starts with ESC and has no letter
      before its last character; an ordinary character is none of ESC, tab, backspace. */
  predicate WellFormed(u: Unit)
  {
    match u
    case Esc(t) => |t| >= 1 && t[0] == ESC && forall m :: 1 <= m < |t| - 1 ==> !IsAlpha(t[m])
    case Ordinary(c) => c != ESC && c != TAB && c != BS
    case _ => true
  }

  /** A unit after which another unit may start: anything but a token cut off by the end of the record. */
  predicate Closed(u: Unit)
  {
    u.Esc? ==> Terminated(u.token)
  }

  /** The unit sequences a scan produces: well-formed units, only the last of which may be an unterminated token. */
  predicate Valid(us: seq<Unit>)
  {
    && (forall k :: 0 <= k < |us| ==> WellFormed(us[k]))
    && (forall k :: 0 <= k < |us| - 1 ==> Closed(us[k]))
  }

  /** The first letter of `s` at or after `j`, or `|s|` when there is none (the `while` of lines 20-21). */
  function FindAlpha(s: string, j: nat): (k: nat)
    requires j <= |s|
    ensures j <= k <= |s|
    ensures k < |s| ==> IsAlpha(s[k])
    ensures forall m :: j <= m < k ==> !IsAlpha(s[m])
    decreases |s| - j
  {
    if j == |s| || IsAlpha(s[j]) then j else FindAlpha(s, j + 1)
  }

  /** The length of the escape token at the head of `s` (line 24's `line[i:j+1]`). */
  function TokenLength(s: string): (n: nat)
    requires |s| >= 1
    ensures 1 <= n <= |s|
  {
    var k := FindAlpha(s, 1);
    if k < |s| then k + 1 else |s|
  }

  /** The unit at the head of a non-empty remainder of the record. */
  function Lead(s: string): (u: Unit)
    requires |s| >= 1
    ensures 1 <= |Text(u)| <= |s|
    ensures Text(u) == s[..|Text(u)|]
  {
    if s[0] == ESC then Esc(s[..TokenLength(s)])
    else if s[0] == TAB then Tab
    else if s[0] == BS then Backspace
    else Ordinary(s[0])
  }

  /** The token at an ESC runs through the first letter after it, or, when no letter
      follows, to the end of the record. */
  lemma EscapeTokenExtent(s: string)
    requires |s| >= 1 && s[0] == ESC
    ensures Lead(s).Esc?
    ensures var t := Lead(s).token;
            && t == s[..|t|]
            && (forall m :: 1 <= m < |t| - 1 ==> !IsAlpha(s[m]))
            && (Terminated(t) || (t == s && forall m :: 1 <= m < |s| ==> !IsAlpha(s[m])))
  {
  }

  /** The units of a record, left to right. */
  function Scan(s: string): (us: seq<Unit>)
    ensures |us| <= |s|
    ensures us == [] <==> s == []
    decreases |s|
  {
    if s == [] then []
    else
      var u := Lead(s);
      [u] + Scan(s[|Text(u)|..])
  }

  /** The scanner only produces valid unit sequences: in particular, a token cut off
      by the end of the record can only be the last unit. */
  lemma {:induction false} ScanValid(s: string)
    ensures Valid(Scan(s))
    decreases |s|
  {
    if s != [] {
      var u := Lead(s);
      var rest := s[|Text(u)|..];
      ScanValid(rest);
      var us := Scan(s);
      assert us == [u] + Scan(rest);
      assert WellFormed(u) by {
        if u.Esc? {
          var k := FindAlpha(s, 1);
          assert forall m :: 1 <= m < |u.token| - 1 ==> u.token[m] == s[m];
        }
      }
      assert rest != [] ==> Closed(u);
      forall k | 0 <= k < |us|
        ensures WellFormed(us[k])
      {
        if k > 0 { assert us[k] == Scan(rest)[k - 1]; }
      }
      forall k | 0 <= k < |us| - 1
        ensures Closed(us[k])
      {
        if k > 0 { assert us[k] == Scan(rest)[k - 1]; }
      }
    }
  }

  /** The characters of a unit sequence, in order. */
  function Flatten(us: seq<Unit>): string
  {
    if us == [] then "" else Text(us[0]) + Flatten(us[1..])
  }

  lemma {:induction false} FlattenAppend(a: seq<Unit>, b: seq<Unit>)
    ensures Flatten(a + b) == Flatten(a) + Flatten(b)
  {
    if a == [] {
      assert a + b == b;
    } else {
      assert (a + b)[1..] == a[1..] + b;
      FlattenAppend(a[1..], b);
    }
  }

  /** Scanning loses and reorders nothing: the units spell the record. */
  lemma {:induction false} FlattenScan(s: string)
    ensures Flatten(Scan(s)) == s
    decreases |s|
  {
    if s != [] {
      var u := Lead(s);
      FlattenScan(s[|Text(u)|..]);
      assert s == Text(u) + s[|Text(u)|..];
    }
  }

  /** A well-formed unit is read back from its own text, whatever follows it,
      provided it is closed or nothing follows. */
  lemma LeadOfText(u: Unit, rest: string)
    requires WellFormed(u)
    requires Closed(u) || rest == []
    ensures |Text(u)| >= 1
    ensures Lead(Text(u) + rest) == u
  {
    var s := Text(u) + rest;
    match u
    case Esc(t) =>
      var k := FindAlpha(s, 1);
      if Terminated(t) {
        assert s[|t| - 1] == t[|t| - 1];
        assert k == |t| - 1;
      } else {
        assert s == t;
        assert k == |t|;
      }
      assert s[..TokenLength(s)] == t;
    case Tab =>
    case Backspace =>
    case Ordinary(c) =>
  }

  /** Every valid unit sequence is what scanning its characters gives. */
  lemma {:induction false} ScanFlatten(us: seq<Unit>)
    requires Valid(us)
    ensures Scan(Flatten(us)) == us
  {
    if us != [] {
      var u := us[0];
      var rest := Flatten(us[1..]);
      assert |us| == 1 ==> us[1..] == [];
      LeadOfText(u, rest);
      assert Flatten(us)[|Text(u)|..] == rest;
      assert Valid(us[1..]) by {
        assert forall k :: 0 <= k < |us[1..]| ==> us[1..][k] == us[k + 1];
      }
      ScanFlatten(us[1..]);
    }
  }

  /** A record that does not end inside an escape token can be scanned in two pieces. */
  lemma ScanAppend(p: string, q: string)
    requires forall k :: 0 <= k < |Scan(p)| ==> Closed(Scan(p)[k])
    ensures Scan(p + q) == Scan(p) + Scan(q)
  {
    var a, b := Scan(p), Scan(q);
    ScanValid(p);
    ScanValid(q);
    assert Valid(a + b) by {
      forall k | 0 <= k < |a + b| ensures WellFormed((a + b)[k]) {
        if k < |a| { assert (a + b)[k] == a[k]; } else { assert (a + b)[k] == b[k - |a|]; }
      }
      forall k | 0 <= k < |a + b| - 1 ensures Closed((a + b)[k]) {
        if k < |a| { assert (a + b)[k] == a[k]; } else { assert (a + b)[k] == b[k - |a|]; }
      }
    }
    FlattenAppend(a, b);
    FlattenScan(p);
    FlattenScan(q);
    ScanFlatten(a + b);
  }

  /** An ESC with no letter after it swallows the rest of the record as one token. */
  lemma UnterminatedToken(t: string)
    requires |t| >= 1 && t[0] == ESC
    requires forall m :: 1 <= m < |t| ==> !IsAlpha(t[m])
    ensures !Terminated(t)
    ensures Scan(t) == [Esc(t)]
  {
    var k := FindAlpha(t, 1);
    assert k == |t|;
    assert t[..TokenLength(t)] == t;
    assert t[|t|..] == [];
  }
}
