/** The few functions of Go's `strings` package that the playlist parser
    uses, each on a one-character separator. Go strings are byte strings;
    every separator here is ASCII, and an ASCII byte never occurs inside a
    multi-byte UTF-8 sequence, so splitting a sequence of characters at these
    separators gives the same pieces as splitting its bytes. */
module Text {
  import opened Wrappers

  /** `strings.Index(s, string(c))`: the position of the first `c`, or -1. */
  function IndexOf(s: string, c: char): (r: int)
    ensures r == -1 <==> c !in s
    ensures r != -1 ==> 0 <= r < |s| && s[r] == c && c !in s[..r]
  {
    if |s| == 0 then -1
    else if s[0] == c then 0
    else
      var k := IndexOf(s[1..], c);
      assert s == [s[0]] + s[1..];
      if k == -1 then -1
      else
        assert s[..k + 1] == [s[0]] + s[1..][..k];
        k + 1
  }

  /** The position of the first `c` in `a + [c] + b` is the end of `a` when
      `a` holds no `c`. */
  lemma IndexOfFirst(a: string, c: char, b: string)
    requires c !in a
    ensures IndexOf(a + [c] + b, c) == |a|
  {
    var s := a + [c] + b;
    assert s[|a|] == c;
    assert s[..|a|] == a;
  }

  /** Searching past a stretch with no `c` shifts the position by its length. */
  lemma {:induction false} IndexOfAfter(a: string, b: string, c: char)
    requires c !in a
    ensures IndexOf(a + b, c) == if c in b then |a| + IndexOf(b, c) else -1
  {
    var s := a + b;
    if c in b {
      var j := IndexOf(b, c);
      assert s[|a| + j] == c;
      assert s[..|a| + j] == a + b[..j];
    }
  }

  /** `strings.SplitN(s, string(c), 2)`: `None` stands for the one-element
      result (no separator), `Some((before, after))` for the two-element one. */
  function SplitFirst(s: string, c: char): (r: Option<(string, string)>)
    ensures r.None? <==> c !in s
    ensures r.Some? ==> s == r.value.0 + [c] + r.value.1 && c !in r.value.0
  {
    var i := IndexOf(s, c);
    if i == -1 then None
    else
      assert s == s[..i] + [c] + s[i + 1..];
      Some((s[..i], s[i + 1..]))
  }

  /** The split at the first separator is the only one whose left part holds
      no separator: everything after the first `c`, later `c`s included, is
      the right part. */
  lemma SplitFirstUnique(a: string, c: char, b: string)
    requires c !in a
    ensures SplitFirst(a + [c] + b, c) == Some((a, b))
  {
    IndexOfFirst(a, c, b);
    var s := a + [c] + b;
    assert s[..|a|] == a;
    assert s[|a| + 1..] == b;
  }

  /** `strings.LastIndex(s, string(c))`: the position of the last `c`, or -1. */
  function LastIndexOf(s: string, c: char): (r: int)
    ensures r == -1 <==> c !in s
    ensures r != -1 ==> 0 <= r < |s| && s[r] == c && c !in s[r + 1..]
    decreases |s|
  {
    if |s| == 0 then -1
    else if s[|s| - 1] == c then |s| - 1
    else
      var init := s[..|s| - 1];
      assert s == init + [s[|s| - 1]];
      var k := LastIndexOf(init, c);
      if k == -1 then -1
      else
        assert s[k + 1..] == init[k + 1..] + [s[|s| - 1]];
        k
  }

  /** The last `c` of `x + [c] + w` is the one after `x` when `w` holds no `c`. */
  lemma LastIndexOfLast(x: string, c: char, w: string)
    requires c !in w
    ensures LastIndexOf(x + [c] + w, c) == |x|
  {
    var s := x + [c] + w;
    assert s[|x|] == c;
    assert s[|x| + 1..] == w;
  }

  /** `strings.Join(parts, string(c))`. */
  function Join(parts: seq<string>, c: char): string
    requires |parts| >= 1
  {
    if |parts| == 1 then parts[0]
    else Join(parts[..|parts| - 1], c) + [c] + parts[|parts| - 1]
  }

  /** `strings.Split(s, string(c))`: the pieces between consecutive `c`s,
      empty pieces included; never empty, and no piece holds a `c`. Cutting
      at the last `c` gives the same pieces as Go's scan from the front. */
  function Split(s: string, c: char): (parts: seq<string>)
    ensures |parts| >= 1
    ensures forall i :: 0 <= i < |parts| ==> c !in parts[i]
    decreases |s|
  {
    var k := LastIndexOf(s, c);
    if k == -1 then [s] else Split(s[..k], c) + [s[k + 1..]]
  }

  /** A separator-free word at the end of a string is its last piece. */
  lemma SplitLastWord(x: string, c: char, w: string)
    requires c !in w
    ensures Split(x + [c] + w, c) == Split(x, c) + [w]
  {
    var s := x + [c] + w;
    LastIndexOfLast(x, c, w);
    assert s[..|x|] == x;
    assert s[|x| + 1..] == w;
  }

  /** The last piece is what follows the last separator. */
  lemma SplitLastPiece(s: string, c: char, w: string)
    requires c !in w
    requires s == w || (|s| > |w| && s[|s| - |w| - 1] == c && s[|s| - |w|..] == w)
    ensures var parts := Split(s, c); parts[|parts| - 1] == w
  {
    if s != w {
      var k := |s| - |w| - 1;
      assert s[k + 1..] == w;
      assert LastIndexOf(s, c) == k;
    }
  }

  /** Joining the pieces gives back the string. */
  lemma {:induction false} JoinSplit(s: string, c: char)
    ensures Join(Split(s, c), c) == s
    decreases |s|
  {
    var k := LastIndexOf(s, c);
    if k != -1 {
      JoinSplit(s[..k], c);
      var parts := Split(s, c);
      assert parts[..|parts| - 1] == Split(s[..k], c);
      assert s == s[..k] + [c] + s[k + 1..];
    }
  }

  /** Splitting undoes joining: pieces free of the separator come back as
      they went in. */
  lemma {:induction false} SplitJoin(parts: seq<string>, c: char)
    requires |parts| >= 1
    requires forall i :: 0 <= i < |parts| ==> c !in parts[i]
    ensures Split(Join(parts, c), c) == parts
    decreases |parts|
  {
    if |parts| > 1 {
      var n := |parts| - 1;
      var init := parts[..n];
      assert forall i :: 0 <= i < |init| ==> init[i] == parts[i];
      SplitJoin(init, c);
      SplitLastWord(Join(init, c), c, parts[n]);
      assert parts == init + [parts[n]];
    }
  }

  predicate IsQuote(ch: char) { ch == '"' }

  /** Every character of `s` is a double quote. */
  predicate AllQuotes(s: string) { forall i :: 0 <= i < |s| ==> IsQuote(s[i]) }

  /** `s` neither starts nor ends with a double quote. */
  predicate Unquoted(s: string) { s == [] || (!IsQuote(s[0]) && !IsQuote(s[|s| - 1])) }

  /** `strings.TrimLeft(s, "\"")`: drops the longest all-quote prefix. */
  function TrimLeftQuotes(s: string): (r: string)
    ensures |r| <= |s| && r == s[|s| - |r|..] && AllQuotes(s[..|s| - |r|])
    ensures r == [] || !IsQuote(r[0])
  {
    if |s| > 0 && IsQuote(s[0]) then
      var r := TrimLeftQuotes(s[1..]);
      assert s[..|s| - |r|] == [s[0]] + s[1..][..|s| - 1 - |r|];
      r
    else s
  }

  /** `strings.TrimRight(s, "\"")`: drops the longest all-quote suffix. */
  function TrimRightQuotes(s: string): (r: string)
    ensures |r| <= |s| && r == s[..|r|] && AllQuotes(s[|r|..])
    ensures r == [] || !IsQuote(r[|r| - 1])
  {
    if |s| > 0 && IsQuote(s[|s| - 1]) then
      var r := TrimRightQuotes(s[..|s| - 1]);
      assert s[|r|..] == s[..|s| - 1][|r|..] + [s[|s| - 1]];
      r
    else s
  }

  /** `r` is what is left of `s` once an all-quote prefix and an all-quote
      suffix are cut off. */
  ghost predicate BetweenQuotes(s: string, r: string)
  {
    exists i :: 0 <= i <= |s| - |r| && s[i..i + |r|] == r && AllQuotes(s[..i]) && AllQuotes(s[i + |r|..])
  }

  /** Cutting an all-quote prefix and then an all-quote suffix leaves what
      lies between quotes. */
  lemma CutBetweenQuotes(s: string, l: string, r: string)
    requires |l| <= |s| && l == s[|s| - |l|..] && AllQuotes(s[..|s| - |l|])
    requires |r| <= |l| && r == l[..|r|] && AllQuotes(l[|r|..])
    ensures BetweenQuotes(s, r)
  {
    var i := |s| - |l|;
    assert s[i..i + |r|] == r;
    assert s[i + |r|..] == l[|r|..];
  }

  /** A prefix of a string that does not start with a quote, itself not
      ending with one, neither starts nor ends with a quote. */
  lemma PrefixUnquoted(l: string, r: string)
    requires l == [] || !IsQuote(l[0])
    requires |r| <= |l| && r == l[..|r|]
    requires r == [] || !IsQuote(r[|r| - 1])
    ensures Unquoted(r)
  {
    if r != [] {
      assert r[0] == l[0];
    }
  }

  /** `strings.Trim(s, "\"")`: every leading and every trailing double quote
      goes, not just one layer, so what is left starts and ends with no quote. */
  function TrimQuotes(s: string): (r: string)
    ensures Unquoted(r) && BetweenQuotes(s, r)
  {
    var l := TrimLeftQuotes(s);
    var r := TrimRightQuotes(l);
    CutBetweenQuotes(s, l, r);
    PrefixUnquoted(l, r);
    r
  }

  /** A string that neither starts nor ends with a quote is left alone. */
  lemma TrimQuotesUnquoted(s: string)
    requires Unquoted(s)
    ensures TrimQuotes(s) == s
  {
  }
}
