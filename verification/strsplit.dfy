/** `StrSplit`: cutting a line into the maximal runs of characters that are
    not delimiters.  Every character of `pattern` is a delimiter; runs of
    consecutive delimiters produce no empty tokens. */
module StrSplit {
  import opened Results

  /** The length of the delimiter-free prefix of `s`. */
  function TokenLen(s: string, pattern: string): (n: nat)
    ensures n <= |s|
    ensures forall k :: 0 <= k < n ==> s[k] !in pattern
    ensures n < |s| ==> s[n] in pattern
    decreases |s|
  {
    if s == [] || s[0] in pattern then 0 else 1 + TokenLen(s[1..], pattern)
  }

  /** The tokens of `s`, defined from the left: skip a delimiter, or take the
      longest delimiter-free prefix as the next token. */
  function Split(s: string, pattern: string): seq<string>
    decreases |s|
  {
    if s == [] then []
    else if s[0] in pattern then Split(s[1..], pattern)
    else
      var n := TokenLen(s, pattern);
      [s[..n]] + Split(s[n..], pattern)
  }

  /** The characters of `s` that are not delimiters, in order. */
  function NonDelimiters(s: string, pattern: string): string
    decreases |s|
  {
    if s == [] then []
    else if s[0] in pattern then NonDelimiters(s[1..], pattern)
    else [s[0]] + NonDelimiters(s[1..], pattern)
  }

  function Concat(ts: seq<string>): string
  {
    if ts == [] then [] else ts[0] + Concat(ts[1..])
  }

  /** `tokens` joined with one separator character between neighbours. */
  function Join(ts: seq<string>, sep: char): string
  {
    if ts == [] then []
    else if |ts| == 1 then ts[0]
    else ts[0] + [sep] + Join(ts[1..], sep)
  }

  /** A token as `StrSplit` produces it: non-empty and free of delimiters. */
  predicate ProperToken(t: string, pattern: string)
  {
    t != [] && forall k :: 0 <= k < |t| ==> t[k] !in pattern
  }

  /** `str.find_first_of(pattern, from)`: the first position at or after
      `from` that holds a delimiter, or `None` for `npos`. */
  function FindFirstOf(s: string, pattern: string, from: nat): (r: Option<nat>)
    requires from <= |s|
    ensures r.Some? ==> from <= r.value < |s| && s[r.value] in pattern
    ensures r.Some? ==> forall k :: from <= k < r.value ==> s[k] !in pattern
    ensures r.None? ==> forall k :: from <= k < |s| ==> s[k] !in pattern
    decreases |s| - from
  {
    if from == |s| then None
    else if s[from] in pattern then Some(from)
    else FindFirstOf(s, pattern, from + 1)
  }

  /** Splitting at the first delimiter: the text before it (if any) is the
      first token, and the rest is split after the delimiter. */
  lemma SplitAtFirstDelimiter(s: string, pattern: string, i: nat)
    requires i < |s| && s[i] in pattern
    requires forall k :: 0 <= k < i ==> s[k] !in pattern
    ensures Split(s, pattern) == (if i > 0 then [s[..i]] else []) + Split(s[i + 1..], pattern)
  {
    if i > 0 {
      assert TokenLen(s, pattern) == i;
      assert s[i..][0] == s[i];
      assert s[i..][1..] == s[i + 1..];
    }
  }

  /** A delimiter-free string is one token, or none when it is empty. */
  lemma SplitNoDelimiter(s: string, pattern: string)
    requires forall k :: 0 <= k < |s| ==> s[k] !in pattern
    ensures Split(s, pattern) == if s == [] then [] else [s]
  {
    if s != [] {
      assert TokenLen(s, pattern) == |s|;
      assert s[|s|..] == [];
      assert s[..|s|] == s;
    }
  }

  /** One iteration of the loop in terms of `Split`. */
  lemma SplitFrom(str: string, pattern: string, start: nat, i: nat)
    requires start <= i < |str| && str[i] in pattern
    requires forall k :: start <= k < i ==> str[k] !in pattern
    ensures Split(str[start..], pattern)
            == (if start != i then [str[start..i]] else []) + Split(str[i + 1..], pattern)
  {
    var s := str[start..];
    SplitAtFirstDelimiter(s, pattern, i - start);
    assert s[..i - start] == str[start..i];
    assert s[i - start + 1..] == str[i + 1..];
  }

  /** The loop of `StrSplit`: each delimiter closes the token in front of it
      when that token is non-empty; what follows the last delimiter is the
      final token when it is non-empty.  An empty pattern gives no tokens. */
  method SplitString(str: string, pattern: string) returns (ret: seq<string>)
    ensures pattern == [] ==> ret == []
    ensures pattern != [] ==> ret == Split(str, pattern)
  {
    ret := [];
    if pattern == [] {
      return;
    }
    var start: nat := 0;
    var index := FindFirstOf(str, pattern, 0);
    while index.Some?
      invariant start <= |str|
      invariant index == FindFirstOf(str, pattern, start)
      invariant ret + Split(str[start..], pattern) == Split(str, pattern)
      decreases |str| - start
    {
      var i := index.value;
      SplitFrom(str, pattern, start, i);
      if start != i {
        ret := ret + [str[start..i]];
      }
      start := i + 1;
      index := FindFirstOf(str, pattern, start);
    }
    SplitNoDelimiter(str[start..], pattern);
    if str[start..] != [] {
      ret := ret + [str[start..]];
    }
  }

  /** Every token is non-empty and free of delimiters. */
  lemma {:induction false} SplitTokensProper(s: string, pattern: string)
    ensures forall k :: 0 <= k < |Split(s, pattern)| ==> ProperToken(Split(s, pattern)[k], pattern)
    decreases |s|
  {
    if s != [] {
      if s[0] in pattern {
        SplitTokensProper(s[1..], pattern);
      } else {
        var n := TokenLen(s, pattern);
        SplitTokensProper(s[n..], pattern);
        var rest := Split(s[n..], pattern);
        assert Split(s, pattern) == [s[..n]] + rest;
        assert forall k :: 1 <= k < |rest| + 1 ==> Split(s, pattern)[k] == rest[k - 1];
      }
    }
  }

  lemma {:induction false} ConcatAppend(a: seq<string>, b: seq<string>)
    ensures Concat(a + b) == Concat(a) + Concat(b)
    decreases |a|
  {
    if a != [] {
      assert (a + b)[1..] == a[1..] + b;
      ConcatAppend(a[1..], b);
    } else {
      assert a + b == b;
    }
  }

  lemma {:induction false} NonDelimitersOfToken(s: string, pattern: string, n: nat)
    requires n <= |s| && forall k :: 0 <= k < n ==> s[k] !in pattern
    ensures NonDelimiters(s, pattern) == s[..n] + NonDelimiters(s[n..], pattern)
    decreases n
  {
    if n > 0 {
      NonDelimitersOfToken(s[1..], pattern, n - 1);
      assert s[1..][..n - 1] == s[1..n];
      assert s[1..][n - 1..] == s[n..];
      assert s[..n] == [s[0]] + s[1..n];
    }
  }

  /** No character is lost or invented: the tokens, concatenated, are exactly
      the non-delimiter characters of the input, in order. */
  lemma {:induction false} SplitKeepsNonDelimiters(s: string, pattern: string)
    ensures Concat(Split(s, pattern)) == NonDelimiters(s, pattern)
    decreases |s|
  {
    if s != [] {
      if s[0] in pattern {
        SplitKeepsNonDelimiters(s[1..], pattern);
      } else {
        var n := TokenLen(s, pattern);
        SplitKeepsNonDelimiters(s[n..], pattern);
        ConcatAppend([s[..n]], Split(s[n..], pattern));
        assert Concat([s[..n]]) == s[..n];
        NonDelimitersOfToken(s, pattern, n);
      }
    }
  }

  /** Joining proper tokens with a delimiter and splitting again gives the
      tokens back. */
  lemma {:induction false} SplitJoin(ts: seq<string>, sep: char, pattern: string)
    requires sep in pattern
    requires forall k :: 0 <= k < |ts| ==> ProperToken(ts[k], pattern)
    ensures Split(Join(ts, sep), pattern) == ts
    decreases |ts|
  {
    if |ts| == 1 {
      SplitNoDelimiter(ts[0], pattern);
    } else if |ts| > 1 {
      var s := Join(ts, sep);
      var t := ts[0];
      var rest := Join(ts[1..], sep);
      assert s == t + [sep] + rest;
      assert s[|t|] == sep;
      assert forall k :: 0 <= k < |t| ==> s[k] == t[k];
      SplitAtFirstDelimiter(s, pattern, |t|);
      assert s[..|t|] == t;
      assert s[|t| + 1..] == rest;
      SplitJoin(ts[1..], sep, pattern);
      assert ts == [t] + ts[1..];
    }
  }
}
