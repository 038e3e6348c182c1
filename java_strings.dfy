/**
 * The java.lang.String operations the entity codecs are built from, with Java's own
 * semantics: `split` drops trailing empty strings, `trim` strips every character up to
 * U+0020, `replace` rewrites non-overlapping matches from left to right.
 */
module JavaStrings {
  import opened Wrappers

  /**
   * `s.indexOf(c)`, and the first-match scan of a list: the first position of `c` in `s`,
   * or None for Java's -1 (or the loop falling through).
   */
  function IndexOf<T(==)>(s: seq<T>, c: T): (r: Option<nat>)
    ensures r.None? <==> c !in s
    ensures r.Some? ==> r.value < |s| && s[r.value] == c && c !in s[..r.value]
  {
    if s == [] then None
    else if s[0] == c then Some(0)
    else match IndexOf(s[1..], c)
      case None => None
      case Some(i) =>
        assert s[..i + 1] == [s[0]] + s[1..][..i];
        Some(i + 1)
  }

  /** The last position of `c` in `s` (`lastIndexOf`, or a scan that keeps its latest match). */
  function LastIndexOf<T(==)>(s: seq<T>, c: T): (r: Option<nat>)
    ensures r.None? <==> c !in s
    ensures r.Some? ==> r.value < |s| && s[r.value] == c && c !in s[r.value + 1..]
  {
    if s == [] then None
    else if s[|s| - 1] == c then Some(|s| - 1)
    else
      var r := LastIndexOf(s[..|s| - 1], c);
      assert r.Some? ==> s[r.value + 1..] == s[..|s| - 1][r.value + 1..] + [s[|s| - 1]];
      r
  }

  /** A position holding `c` with no earlier `c` is the first position of `c`. */
  lemma IndexOfIs<T>(s: seq<T>, c: T, i: nat)
    requires i < |s| && s[i] == c && forall j | 0 <= j < i :: s[j] != c
    ensures IndexOf(s, c) == Some(i)
  {
    assert s[..i + 1] == s[..i] + [c];
  }

  /** A position holding `c` with no later `c` is the last position of `c`. */
  lemma LastIndexOfIs<T>(s: seq<T>, c: T, i: nat)
    requires i < |s| && s[i] == c && forall j | i < j < |s| :: s[j] != c
    ensures LastIndexOf(s, c) == Some(i)
  {
    assert s[i..] == [c] + s[i + 1..];
  }

  /** Each string of `cs` followed by `d`: what a builder appending `c` then `d` in a loop produces. */
  function Terminated(cs: seq<string>, d: char): string
  {
    if cs == [] then [] else Terminated(cs[..|cs| - 1], d) + cs[|cs| - 1] + [d]
  }

  /** One more string of `cs`, and its delimiter, at the end of the prefix. */
  lemma TerminatedPrefix(cs: seq<string>, i: nat, d: char)
    requires i < |cs|
    ensures Terminated(cs[..i + 1], d) == Terminated(cs[..i], d) + cs[i] + [d]
  {
    assert cs[..i + 1][..i] == cs[..i];
  }

  /** Terminated read from the front: the first string, its delimiter, then the rest. */
  lemma {:induction false} TerminatedFront(cs: seq<string>, d: char)
    requires cs != []
    ensures Terminated(cs, d) == cs[0] + [d] + Terminated(cs[1..], d)
    decreases |cs|
  {
    if |cs| > 1 {
      var init, rest, last := cs[..|cs| - 1], cs[1..], cs[|cs| - 1];
      TerminatedFront(init, d);
      assert rest[..|rest| - 1] == init[1..] && rest[|rest| - 1] == last && init[0] == cs[0];
      calc {
        Terminated(cs, d);
        Terminated(init, d) + last + [d];
        cs[0] + [d] + Terminated(init[1..], d) + last + [d];
        cs[0] + [d] + (Terminated(init[1..], d) + last + [d]);
        cs[0] + [d] + Terminated(rest, d);
      }
    } else {
      assert cs[..0] == [] && cs[1..] == [];
    }
  }

  /** Every piece of `s` between occurrences of `d`, empty pieces included, first to last. */
  function Pieces(s: string, d: char): (r: seq<string>)
    ensures |r| >= 1
    ensures forall p | p in r :: d !in p
    ensures r[|r| - 1] == [] ==> s == [] || s[|s| - 1] == d
    decreases |s|
  {
    match IndexOf(s, d)
    case None => [s]
    case Some(i) => [s[..i]] + Pieces(s[i + 1..], d)
  }

  /** Removes the empty strings at the end of `ps`. */
  function DropTrailingEmpty(ps: seq<string>): (r: seq<string>)
    ensures |r| <= |ps| && r == ps[..|r|]
    ensures r != [] ==> r[|r| - 1] != []
    ensures forall k | |r| <= k < |ps| :: ps[k] == []
  {
    if ps == [] then []
    else if ps[|ps| - 1] == [] then DropTrailingEmpty(ps[..|ps| - 1])
    else ps
  }

  /**
   * `s.split(d)` for a one-character literal delimiter and no limit: a string without `d`
   * gives itself (even when empty); otherwise the pieces without their trailing empty ones.
   */
  function Split(s: string, d: char): (r: seq<string>)
    ensures d !in s ==> r == [s]
    ensures forall p | p in r :: d !in p
  {
    if d !in s then [s] else DropTrailingEmpty(Pieces(s, d))
  }

  /** A piece free of `d` followed by `d` is the first piece, and cutting goes on after it. */
  lemma PiecesCons(c: string, tail: string, d: char)
    requires d !in c
    ensures Pieces(c + [d] + tail, d) == [c] + Pieces(tail, d)
  {
    var s := c + [d] + tail;
    assert s[|c|] == d && s[..|c|] == c;
    assert s[|c| + 1..] == tail;
  }

  /** Cutting a terminated list at its delimiters gives its strings back, then whatever follows. */
  lemma {:induction false} PiecesOfTerminated(cs: seq<string>, rest: string, d: char)
    requires forall c | c in cs :: d !in c
    ensures Pieces(Terminated(cs, d) + rest, d) == cs + Pieces(rest, d)
    decreases |cs|
  {
    if cs == [] {
      assert Terminated(cs, d) + rest == rest;
    } else {
      var tail := Terminated(cs[1..], d) + rest;
      calc {
        Pieces(Terminated(cs, d) + rest, d);
        { TerminatedFront(cs, d); assert Terminated(cs, d) + rest == cs[0] + [d] + tail; }
        Pieces(cs[0] + [d] + tail, d);
        { assert cs[0] in cs; PiecesCons(cs[0], tail, d); }
        [cs[0]] + Pieces(tail, d);
        { PiecesOfTerminated(cs[1..], rest, d); }
        [cs[0]] + (cs[1..] + Pieces(rest, d));
        { assert cs == [cs[0]] + cs[1..]; }
        cs + Pieces(rest, d);
      }
    }
  }

  /** Splitting delimited fields whose last field is not empty gives exactly those fields. */
  lemma SplitFields(cs: seq<string>, last: string, d: char)
    requires forall c | c in cs :: d !in c
    requires d !in last && last != []
    ensures Split(Terminated(cs, d) + last, d) == cs + [last]
  {
    var s := Terminated(cs, d) + last;
    PiecesOfTerminated(cs, last, d);
    if cs == [] {
      assert s == last;
    } else {
      TerminatedFront(cs, d);
      assert s[|cs[0]|] == d;
    }
  }

  /** Splitting a list of non-empty strings each followed by `d` gives exactly that list. */
  lemma SplitChunks(cs: seq<string>, d: char)
    requires cs != []
    requires forall c | c in cs :: d !in c && c != []
    ensures Split(Terminated(cs, d), d) == cs
  {
    var s := Terminated(cs, d);
    PiecesOfTerminated(cs, [], d);
    assert s + [] == s;
    TerminatedFront(cs, d);
    assert s[|cs[0]|] == d;
    assert Pieces(s, d) == cs + [[]];
    assert cs[|cs| - 1] in cs;
    var r := DropTrailingEmpty(cs + [[]]);
    assert DropTrailingEmpty(cs + [[]]) == DropTrailingEmpty((cs + [[]])[..|cs|]);
    assert (cs + [[]])[..|cs|] == cs;
  }

  /** A string that does not end with the delimiter always splits into at least one piece. */
  lemma SplitNotEmpty(s: string, d: char)
    requires s == [] || s[|s| - 1] != d
    ensures Split(s, d) != []
  {
    if d in s {
      var ps := Pieces(s, d);
    }
  }

  /** Java's `trim()` treats every character up to the space as whitespace. */
  predicate IsTrimmed(c: char) { c <= ' ' }

  /** Drops the whitespace at the front. */
  function TrimStart(s: string): (r: string)
    ensures |r| <= |s| && r == s[|s| - |r|..]
    ensures r != [] ==> !IsTrimmed(r[0])
  {
    if s != [] && IsTrimmed(s[0]) then TrimStart(s[1..]) else s
  }

  /** Drops the whitespace at the back. */
  function TrimEnd(s: string): (r: string)
    ensures |r| <= |s| && r == s[..|r|]
    ensures r != [] ==> !IsTrimmed(r[|r| - 1])
  {
    if s != [] && IsTrimmed(s[|s| - 1]) then TrimEnd(s[..|s| - 1]) else s
  }

  /** `s.trim()`. */
  function Trim(s: string): string
  {
    TrimEnd(TrimStart(s))
  }

  /** A string with no whitespace character is left as it is by `trim()`. */
  lemma TrimVisible(s: string)
    requires forall i | 0 <= i < |s| :: !IsTrimmed(s[i])
    ensures Trim(s) == s
  {
  }

  /** A string made only of whitespace trims to the empty string. */
  lemma {:induction false} TrimBlank(s: string)
    requires forall i | 0 <= i < |s| :: IsTrimmed(s[i])
    ensures Trim(s) == []
    decreases |s|
  {
    if s != [] {
      TrimBlank(s[1..]);
    }
  }

  /** `s.contains(pat)`. */
  function Contains(s: string, pat: string): bool
  {
    |pat| <= |s| && (s[..|pat|] == pat || Contains(s[1..], pat))
  }

  /** `s.replace(pat, rep)`: every non-overlapping match, scanning left to right, is replaced. */
  function Replace(s: string, pat: string, rep: string): string
    requires pat != []
  {
    if |s| < |pat| then s
    else if s[..|pat|] == pat then rep + Replace(s[|pat|..], pat, rep)
    else [s[0]] + Replace(s[1..], pat, rep)
  }

  /** No match of `pat` can start inside a prefix that lacks `pat`'s first character. */
  lemma {:induction false} ReplaceSkips(x: string, y: string, pat: string, rep: string)
    requires pat != [] && pat[0] !in x
    ensures Replace(x + y, pat, rep) == x + Replace(y, pat, rep)
    decreases |x|
  {
    if x != [] {
      var s := x + y;
      if |s| < |pat| {
        assert Replace(s, pat, rep) == s;
        assert Replace(y, pat, rep) == y;
      } else {
        assert s[..|pat|][0] == x[0] && x[0] in x;
        assert s[..|pat|] != pat;
        assert s[1..] == x[1..] + y;
        ReplaceSkips(x[1..], y, pat, rep);
        calc {
          Replace(s, pat, rep);
          [s[0]] + Replace(s[1..], pat, rep);
          [x[0]] + (x[1..] + Replace(y, pat, rep));
          { assert x == [x[0]] + x[1..]; }
          x + Replace(y, pat, rep);
        }
      }
    } else {
      assert x + y == y;
    }
  }

  /** A character at which no match starts is copied, and the scan goes on after it. */
  lemma ReplaceStep(c: char, x: string, pat: string, rep: string)
    requires pat != [] && (|x| + 1 < |pat| || ([c] + x)[..|pat|] != pat)
    ensures Replace([c] + x, pat, rep) == [c] + Replace(x, pat, rep)
  {
    var s := [c] + x;
    if |s| >= |pat| {
      assert s[1..] == x;
    }
  }

  /** A string lacking `pat`'s first character is left as it is by `replace`. */
  lemma ReplaceFree(s: string, pat: string, rep: string)
    requires pat != [] && pat[0] !in s
    ensures Replace(s, pat, rep) == s
  {
    ReplaceSkips(s, [], pat, rep);
    assert s + [] == s;
  }

  /** A character not among the strings nor the delimiter is not in their terminated join. */
  lemma {:induction false} TerminatedFree(cs: seq<string>, d: char, c: char)
    requires c != d && forall x | x in cs :: c !in x
    ensures c !in Terminated(cs, d)
    decreases |cs|
  {
    if cs != [] {
      assert forall x | x in cs[..|cs| - 1] :: x in cs;
      TerminatedFree(cs[..|cs| - 1], d, c);
      assert cs[|cs| - 1] in cs;
    }
  }

  /** Neither does a match lie inside a string that lacks `pat`'s first character. */
  lemma {:induction false} ContainsNeedsHead(s: string, pat: string)
    requires pat != [] && pat[0] !in s
    ensures !Contains(s, pat)
    decreases |s|
  {
    if |pat| <= |s| {
      assert s[..|pat|][0] == s[0];
      ContainsNeedsHead(s[1..], pat);
    }
  }

  /** `pat` is found at the end of `x + pat`. */
  lemma {:induction false} ContainsSuffix(x: string, pat: string)
    ensures Contains(x + pat, pat)
    decreases |x|
  {
    if x != [] {
      assert (x + pat)[1..] == x[1..] + pat;
      ContainsSuffix(x[1..], pat);
    } else {
      assert (x + pat)[..|pat|] == pat;
    }
  }

  /** `s.replace(from, to)` for characters: every occurrence of `from` becomes `to`. */
  function ReplaceChar(s: string, from: char, to: char): (r: string)
    ensures |r| == |s|
    ensures forall i | 0 <= i < |s| :: r[i] == if s[i] == from then to else s[i]
  {
    if s == [] then [] else [if s[0] == from then to else s[0]] + ReplaceChar(s[1..], from, to)
  }

  /** Replacing characters works piece by piece. */
  lemma {:induction false} ReplaceCharConcat(x: string, y: string, from: char, to: char)
    ensures ReplaceChar(x + y, from, to) == ReplaceChar(x, from, to) + ReplaceChar(y, from, to)
  {
    var r := ReplaceChar(x + y, from, to);
    var q := ReplaceChar(x, from, to) + ReplaceChar(y, from, to);
    assert |r| == |q|;
    forall i | 0 <= i < |r|
      ensures r[i] == q[i]
    {
      if i < |x| {
        assert (x + y)[i] == x[i];
      } else {
        assert (x + y)[i] == y[i - |x|];
      }
    }
  }

  /** A string without `from` is left as it is. */
  lemma ReplaceCharAbsent(s: string, from: char, to: char)
    requires from !in s
    ensures ReplaceChar(s, from, to) == s
  {
    var r := ReplaceChar(s, from, to);
    forall i | 0 <= i < |s|
      ensures r[i] == s[i]
    {
      assert s[i] in s;
    }
  }
}
