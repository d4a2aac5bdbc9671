/** The few string operations the line parser relies on: Java's `trim`,
    `indexOf` of a character, and `split` on a single separator character. */
module Text {

  /** `String.trim()` strips every leading and trailing character whose
      code is at most U+0020 (space and all control characters). */
  predicate IsBlank(c: char) {
    c <= ' '
  }

  ghost predicate AllBlank(s: string) {
    forall k :: 0 <= k < |s| ==> IsBlank(s[k])
  }

  function TrimLeft(s: string): (r: string)
    ensures |r| <= |s| && r == s[|s| - |r|..]
    ensures AllBlank(s[..|s| - |r|])
    ensures r != [] ==> !IsBlank(r[0])
  {
    if s != [] && IsBlank(s[0]) then TrimLeft(s[1..]) else s
  }

  function TrimRight(s: string): (r: string)
    ensures |r| <= |s| && r == s[..|r|]
    ensures AllBlank(s[|r|..])
    ensures r != [] ==> !IsBlank(r[|r| - 1])
  {
    if s != [] && IsBlank(s[|s| - 1]) then
      var init := s[..|s| - 1];
      var r := TrimRight(init);
      assert r == s[..|r|];
      assert s[|r|..] == init[|r|..] + [s[|s| - 1]];
      BlankConcat(init[|r|..], [s[|s| - 1]]);
      r
    else
      assert s[|s|..] == [];
      s
  }

  /** Java's `String.trim()`: the longest infix of `s` that neither starts
      nor ends with a blank, obtained by dropping only blanks. */
  function Trim(s: string): (r: string)
    ensures r == [] <==> AllBlank(s)
    ensures r != [] ==> !IsBlank(r[0]) && !IsBlank(r[|r| - 1])
  {
    var l := TrimLeft(s);
    var r := TrimRight(l);
    TrimInfix(s, l, r);
    r
  }

  /** What trimming drops: only blanks, and only at the two ends. */
  lemma TrimDropsBlankEnds(s: string)
    ensures BlankPadded(s, |s| - |TrimLeft(s)|, Trim(s))
  {
    var l := TrimLeft(s);
    TrimInfix(s, l, TrimRight(l));
  }

  /** `s` is `r` at offset `i` with only blanks around it. */
  ghost predicate BlankPadded(s: string, i: nat, r: string) {
    i + |r| <= |s| && r == s[i..i + |r|] && AllBlank(s[..i]) && AllBlank(s[i + |r|..])
  }

  lemma TrimInfix(s: string, l: string, r: string)
    requires |l| <= |s| && l == s[|s| - |l|..] && AllBlank(s[..|s| - |l|])
    requires l != [] ==> !IsBlank(l[0])
    requires |r| <= |l| && r == l[..|r|] && AllBlank(l[|r|..])
    requires r != [] ==> !IsBlank(r[|r| - 1])
    ensures r == [] <==> AllBlank(s)
    ensures r != [] ==> !IsBlank(r[0]) && !IsBlank(r[|r| - 1])
    ensures BlankPadded(s, |s| - |l|, r)
  {
    var i := |s| - |l|;
    assert r == s[i..i + |r|];
    assert s[i + |r|..] == l[|r|..];
    assert s[i..] == l;
    if r == [] {
      assert s == s[..i] + l;
      BlankConcat(s[..i], l);
    } else {
      assert r[0] == l[0] && s[i] == r[0];
    }
  }

  lemma BlankConcat(a: string, b: string)
    requires AllBlank(a) && AllBlank(b)
    ensures AllBlank(a + b)
  {
    forall k | 0 <= k < |a + b|
      ensures IsBlank((a + b)[k])
    {
      if k < |a| { assert (a + b)[k] == a[k]; } else { assert (a + b)[k] == b[k - |a|]; }
    }
  }

  /** Trimming twice is the same as trimming once. */
  lemma TrimIdempotent(s: string)
    ensures Trim(Trim(s)) == Trim(s)
  {
    var r := Trim(s);
    if r == [] {
      assert TrimLeft(r) == [];
      assert TrimRight(TrimLeft(r)) == [];
    } else {
      assert !IsBlank(r[0]) && !IsBlank(r[|r| - 1]);
      assert TrimLeft(r) == r;
      assert TrimRight(r) == r;
    }
    assert Trim(r) == TrimRight(TrimLeft(r));
  }

  /** Java's `s.indexOf(c)`: the position of the first occurrence of `c`,
      or -1 when `c` does not occur. */
  function IndexOf(s: string, c: char): (r: int)
    ensures -1 <= r < |s|
    ensures r == -1 <==> c !in s
    ensures 0 <= r ==> s[r] == c && c !in s[..r]
  {
    if s == [] then -1
    else if s[0] == c then 0
    else
      var k := IndexOf(s[1..], c);
      if k < 0 then -1
      else
        assert s[..k + 1] == [s[0]] + s[1..][..k];
        k + 1
  }

  /** The pieces of `parts` glued back together with `sep` between them. */
  function Join(parts: seq<string>, sep: char): string {
    if |parts| == 0 then []
    else if |parts| == 1 then parts[0]
    else parts[0] + [sep] + Join(parts[1..], sep)
  }

  /** `s` cut at every occurrence of `sep`, keeping empty pieces. */
  function Split(s: string, sep: char): (r: seq<string>)
    ensures |r| >= 1
    ensures forall i :: 0 <= i < |r| ==> sep !in r[i]
    ensures Join(r, sep) == s
    decreases |s|
  {
    var i := IndexOf(s, sep);
    if i < 0 then [s]
    else
      var rest := Split(s[i + 1..], sep);
      assert ([s[..i]] + rest)[1..] == rest;
      assert s == s[..i] + [sep] + s[i + 1..];
      [s[..i]] + rest
  }

  /** Splitting a joined list of separator-free pieces gives the pieces back. */
  lemma {:induction false} SplitJoin(parts: seq<string>, sep: char)
    requires |parts| >= 1
    requires forall i :: 0 <= i < |parts| ==> sep !in parts[i]
    ensures Split(Join(parts, sep), sep) == parts
  {
    if |parts| > 1 {
      var tail := Join(parts[1..], sep);
      SplitAtFirst(parts[0], sep, tail);
      SplitJoin(parts[1..], sep);
      assert parts == [parts[0]] + parts[1..];
    }
  }

  /** The first piece of `a + [sep] + b` is `a` when `a` has no separator. */
  lemma SplitAtFirst(a: string, sep: char, b: string)
    requires sep !in a
    ensures Split(a + [sep] + b, sep) == [a] + Split(b, sep)
  {
    var s := a + [sep] + b;
    assert s[..|a|] == a;
    assert s[|a|] == sep;
    assert IndexOf(s, sep) == |a|;
    assert s[|a| + 1..] == b;
  }

  /** Concatenation regrouped. */
  lemma AppendAssoc<X>(a: seq<X>, b: seq<X>, c: seq<X>)
    ensures a + b + c == a + (b + c)
  {
  }
}
