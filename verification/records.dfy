/**
 The record structure of the input: the whole text is cut at every line feed,
 exactly as Python's `str.split('\n')` does, so that n line feeds give n + 1
 records and no record contains a line feed.
 */
module Records {

  const NL: char := '\n'

  /** The number of occurrences of `c` in `s`. */
  function Count(s: string, c: char): nat
  {
    if s == [] then 0 else (if s[0] == c then 1 else 0) + Count(s[1..], c)
  }

  /** `s` with every occurrence of `c` deleted. */
  function Without(s: string, c: char): (r: string)
    ensures c !in r
    ensures |r| + Count(s, c) == |s|
  {
    if s == [] then [] else (if s[0] == c then [] else [s[0]]) + Without(s[1..], c)
  }

  /** The index of the first `c` in `s`, or `|s|` when there is none. */
  function IndexOf(s: string, c: char): (k: nat)
    ensures k <= |s|
    ensures k < |s| ==> s[k] == c
    ensures forall m :: 0 <= m < k ==> s[m] != c
  {
    if s == [] || s[0] == c then 0 else 1 + IndexOf(s[1..], c)
  }

  /** The records of `s`: the maximal line-feed-free pieces between line feeds. */
  function Split(s: string): (rs: seq<string>)
    ensures |rs| >= 1
    decreases |s|
  {
    var k := IndexOf(s, NL);
    if k == |s| then [s] else [s[..k]] + Split(s[k + 1..])
  }

  /** No record contains a line feed. */
  lemma {:induction false} SplitLineFree(s: string)
    ensures forall i :: 0 <= i < |Split(s)| ==> NL !in Split(s)[i]
    decreases |s|
  {
    var k := IndexOf(s, NL);
    assert NL !in s[..k] by {
      assert forall m :: 0 <= m < k ==> s[..k][m] != NL;
    }
    if k < |s| {
      SplitLineFree(s[k + 1..]);
      var rs := Split(s[k + 1..]);
      assert Split(s) == [s[..k]] + rs;
      assert forall i :: 1 <= i < |Split(s)| ==> Split(s)[i] == rs[i - 1];
    }
  }

  /** The records put back together with one line feed between neighbours. */
  function Join(rs: seq<string>): string
  {
    if |rs| == 0 then "" else if |rs| == 1 then rs[0] else rs[0] + [NL] + Join(rs[1..])
  }

  lemma {:induction false} CountAppend(a: string, b: string, c: char)
    ensures Count(a + b, c) == Count(a, c) + Count(b, c)
  {
    if a == [] {
      assert a + b == b;
    } else {
      assert (a + b)[1..] == a[1..] + b;
      CountAppend(a[1..], b, c);
    }
  }

  lemma {:induction false} WithoutAppend(a: string, b: string, c: char)
    ensures Without(a + b, c) == Without(a, c) + Without(b, c)
  {
    if a == [] {
      assert a + b == b;
    } else {
      assert (a + b)[1..] == a[1..] + b;
      WithoutAppend(a[1..], b, c);
    }
  }

  lemma {:induction false} CountAbsent(s: string, c: char)
    requires c !in s
    ensures Count(s, c) == 0
    ensures Without(s, c) == s
  {
    if s != [] {
      CountAbsent(s[1..], c);
    }
  }

  /** Splitting yields exactly one record more than there are line feeds. */
  lemma {:induction false} SplitCount(s: string)
    ensures |Split(s)| == Count(s, NL) + 1
    decreases |s|
  {
    var k := IndexOf(s, NL);
    if k == |s| {
      CountAbsent(s, NL);
    } else {
      assert s == s[..k] + [NL] + s[k + 1..];
      CountAppend(s[..k] + [NL], s[k + 1..], NL);
      CountAppend(s[..k], [NL], NL);
      CountAbsent(s[..k], NL);
      SplitCount(s[k + 1..]);
    }
  }

  /** Splitting at the first line feed. */
  lemma SplitFirst(s: string, k: nat)
    requires k == IndexOf(s, NL) && k < |s|
    ensures Split(s) == [s[..k]] + Split(s[k + 1..])
  {
  }

  /** A text is what lies before position `k`, the character there, and what follows. */
  lemma Around(s: string, k: nat)
    requires k < |s|
    ensures s == s[..k] + [s[k]] + s[k + 1..]
  {
  }

  /** Joining a record in front of a non-empty list puts one line feed between them. */
  lemma JoinCons(h: string, rs: seq<string>)
    requires |rs| >= 1
    ensures Join([h] + rs) == h + [NL] + Join(rs)
  {
    assert ([h] + rs)[1..] == rs;
  }

  /** Joining the records restores the text. */
  lemma {:induction false} JoinSplit(s: string)
    ensures Join(Split(s)) == s
    decreases |s|
  {
    var k := IndexOf(s, NL);
    if k < |s| {
      var rest := s[k + 1..];
      var rs := Split(rest);
      JoinSplit(rest);
      SplitFirst(s, k);
      JoinCons(s[..k], rs);
      Around(s, k);
    }
  }

  /** Splitting a join of line-feed-free records gives the records back. */
  lemma {:induction false} SplitJoin(rs: seq<string>)
    requires |rs| >= 1
    requires forall i :: 0 <= i < |rs| ==> NL !in rs[i]
    ensures Split(Join(rs)) == rs
  {
    var s := Join(rs);
    if |rs| == 1 {
      assert IndexOf(s, NL) == |s|;
    } else {
      var tail := Join(rs[1..]);
      assert s == rs[0] + [NL] + tail;
      var k := IndexOf(s, NL);
      assert s[|rs[0]|] == NL;
      assert k == |rs[0]|;
      assert s[..k] == rs[0];
      assert s[k + 1..] == tail;
      SplitJoin(rs[1..]);
      assert rs == [rs[0]] + rs[1..];
    }
  }

  /** Joining a concatenation puts one line feed between the two joins. */
  lemma {:induction false} JoinAppend(a: seq<string>, b: seq<string>)
    requires |a| >= 1 && |b| >= 1
    ensures Join(a + b) == Join(a) + [NL] + Join(b)
  {
    if |a| == 1 {
      assert (a + b)[1..] == b;
    } else {
      assert (a + b)[1..] == a[1..] + b;
      JoinAppend(a[1..], b);
    }
  }
}
