/**
 * The two .NET string operations the CSV loader applies to each line:
 * `String.Split(char)` and `String.Trim(params char[])` with the quote
 * characters `'` and `"`.
 */
module Text {

  /** Number of occurrences of `c` in `s`. */
  function Occurrences(s: string, c: char): nat
  {
    if s == [] then 0
    else (if s[0] == c then 1 else 0) + Occurrences(s[1..], c)
  }

  /**
   * `s.Split(sep)`: the maximal pieces of `s` between occurrences of `sep`,
   * empty pieces included, so there is always at least one piece.
   */
  function Split(s: string, sep: char): (segs: seq<string>)
    ensures |segs| >= 1
  {
    if s == [] then [[]]
    else
      var rest := Split(s[1..], sep);
      if s[0] == sep then [[]] + rest
      else [[s[0]] + rest[0]] + rest[1..]
  }

  /** `String.Join(sep, segs)`: the pieces with one `sep` between neighbours. */
  function Join(segs: seq<string>, sep: char): string
  {
    if segs == [] then []
    else if |segs| == 1 then segs[0]
    else segs[0] + [sep] + Join(segs[1..], sep)
  }

  /** Splitting yields one more piece than the text has separators. */
  lemma {:induction false} SplitCount(s: string, sep: char)
    ensures |Split(s, sep)| == Occurrences(s, sep) + 1
  {
    if s != [] {
      SplitCount(s[1..], sep);
    }
  }

  /** No piece contains the separator. */
  lemma {:induction false} SplitPiecesFree(s: string, sep: char)
    ensures forall k | 0 <= k < |Split(s, sep)| :: sep !in Split(s, sep)[k]
  {
    if s != [] {
      SplitPiecesFree(s[1..], sep);
    }
  }

  /** Joining the pieces with the separator gives back the text. */
  lemma {:induction false} JoinSplit(s: string, sep: char)
    ensures Join(Split(s, sep), sep) == s
  {
    if s != [] {
      var rest := Split(s[1..], sep);
      JoinSplit(s[1..], sep);
      if s[0] == sep {
        assert ([[]] + rest)[1..] == rest;
      } else if |rest| == 1 {
      } else {
        assert ([[s[0]] + rest[0]] + rest[1..])[1..] == rest[1..];
        assert Join(rest, sep) == rest[0] + [sep] + Join(rest[1..], sep);
      }
    }
  }

  /** Text without the separator in front of `t` extends the first piece of `t`. */
  lemma {:induction false} SplitPrefix(a: string, t: string, sep: char)
    requires sep !in a
    ensures Split(a + t, sep) == [a + Split(t, sep)[0]] + Split(t, sep)[1..]
  {
    if a != [] {
      var st := Split(t, sep);
      assert (a + t)[0] == a[0] != sep;
      assert (a + t)[1..] == a[1..] + t;
      SplitPrefix(a[1..], t, sep);
      var rest := Split(a[1..] + t, sep);
      assert rest[1..] == st[1..];
      assert [a[0]] + (a[1..] + st[0]) == a + st[0];
    } else {
      var st := Split(t, sep);
      assert a + t == t && a + st[0] == st[0];
      assert st == [st[0]] + st[1..];
    }
  }

  /**
   * Splitting a join of separator-free pieces gives back the pieces, so the
   * split loses nothing and invents nothing.
   */
  lemma {:induction false} SplitJoin(segs: seq<string>, sep: char)
    requires |segs| >= 1
    requires forall k | 0 <= k < |segs| :: sep !in segs[k]
    ensures Split(Join(segs, sep), sep) == segs
  {
    if |segs| == 1 {
      SplitPrefix(segs[0], [], sep);
      assert Split([], sep) == [[]];
      assert segs[0] + [] == segs[0];
    } else {
      var u := Join(segs[1..], sep);
      SplitJoin(segs[1..], sep);
      assert segs[0] + [sep] + u == segs[0] + ([sep] + u);
      SplitPrefix(segs[0], [sep] + u, sep);
      assert ([sep] + u)[0] == sep && ([sep] + u)[1..] == u;
      assert Split([sep] + u, sep) == [[]] + segs[1..];
      assert segs[0] + [] == segs[0];
      assert segs == [segs[0]] + segs[1..];
    }
  }

  /** The characters `String.Trim` removes here: the single and the double quote. */
  predicate IsQuote(c: char)
  {
    c == '\'' || c == '"'
  }

  /** `s` is empty or neither starts nor ends with a quote. */
  predicate QuoteFreeEnds(s: string)
  {
    s == [] || (!IsQuote(s[0]) && !IsQuote(s[|s| - 1]))
  }

  /** `s` with its leading quotes removed. */
  function TrimStart(s: string): (r: string)
    ensures |r| <= |s| && r == s[|s| - |r|..]
    ensures r == [] || !IsQuote(r[0])
  {
    if s != [] && IsQuote(s[0]) then TrimStart(s[1..]) else s
  }

  /** What the start trim removes is quotes only. */
  lemma {:induction false} TrimStartRemovesQuotes(s: string)
    ensures forall k | 0 <= k < |s| - |TrimStart(s)| :: IsQuote(s[k])
  {
    if s != [] && IsQuote(s[0]) {
      TrimStartRemovesQuotes(s[1..]);
      assert forall k | 1 <= k < |s| - |TrimStart(s)| :: s[k] == s[1..][k - 1];
    }
  }

  /** `s` with its trailing quotes removed. */
  function TrimEnd(s: string): (r: string)
    ensures |r| <= |s| && r == s[..|r|]
    ensures r == [] || !IsQuote(r[|r| - 1])
  {
    if s != [] && IsQuote(s[|s| - 1]) then TrimEnd(s[..|s| - 1]) else s
  }

  /** What the end trim removes is quotes only. */
  lemma {:induction false} TrimEndRemovesQuotes(s: string)
    ensures forall k | |TrimEnd(s)| <= k < |s| :: IsQuote(s[k])
  {
    if s != [] && IsQuote(s[|s| - 1]) {
      TrimEndRemovesQuotes(s[..|s| - 1]);
      assert forall k | |TrimEnd(s)| <= k < |s| - 1 :: s[k] == s[..|s| - 1][k];
    }
  }

  /**
   * `s.Trim('\'', '"')`: `s` without the run of quotes at its start and the
   * run of quotes at its end. What remains is a contiguous part of `s` whose
   * ends are not quotes; everything else, whitespace included, is kept.
   */
  function Trim(s: string): (r: string)
    ensures QuoteFreeEnds(r)
  {
    TrimEnd(TrimStart(s))
  }

  /**
   * `s[..i]` and `s[j..]` consist of quotes only: cutting `s` down to
   * `s[i..j]` removes nothing but quotes.
   */
  predicate Unquoted(s: string, i: nat, j: nat)
    requires i <= j <= |s|
  {
    (forall k | 0 <= k < i :: IsQuote(s[k])) && (forall k | j <= k < |s| :: IsQuote(s[k]))
  }

  /** The trim removes quotes only, and only from the two ends. */
  lemma TrimRemovesOnlyQuotes(s: string)
    ensures exists i, j | 0 <= i <= j <= |s| :: Trim(s) == s[i..j] && Unquoted(s, i, j)
  {
    var t := TrimStart(s);
    var r := TrimEnd(t);
    var i := |s| - |t|;
    TrimStartRemovesQuotes(s);
    TrimEndRemovesQuotes(t);
    assert r == s[i..i + |r|] by { assert t == s[i..] && r == t[..|r|]; }
    assert Unquoted(s, i, i + |r|) by {
      forall k | i + |r| <= k < |s| ensures IsQuote(s[k]) {
        assert s[k] == t[k - i];
      }
    }
  }

  /** Leading quotes up to position `i`, then a non-quote: the start trim cuts at `i`. */
  lemma {:induction false} TrimStartAt(s: string, i: nat)
    requires i <= |s|
    requires forall k | 0 <= k < i :: IsQuote(s[k])
    requires i == |s| || !IsQuote(s[i])
    ensures TrimStart(s) == s[i..]
  {
    if i > 0 {
      assert IsQuote(s[0]);
      TrimStartAt(s[1..], i - 1);
      assert s[1..][i - 1..] == s[i..];
    }
  }

  /** A non-quote at `j - 1`, then only quotes: the end trim cuts at `j`. */
  lemma {:induction false} TrimEndAt(s: string, j: nat)
    requires j <= |s|
    requires forall k | j <= k < |s| :: IsQuote(s[k])
    requires j == 0 || !IsQuote(s[j - 1])
    ensures TrimEnd(s) == s[..j]
  {
    if j < |s| {
      assert IsQuote(s[|s| - 1]);
      TrimEndAt(s[..|s| - 1], j);
      assert s[..|s| - 1][..j] == s[..j];
    } else {
      assert s[..j] == s;
    }
  }

  /** A non-quote at `j - 1` and quotes from `j` on: the end trim of `s[i..]` stops at `j`. */
  lemma TrimEndOfSuffix(s: string, i: nat, j: nat)
    requires i < j <= |s|
    requires forall k | j <= k < |s| :: IsQuote(s[k])
    requires !IsQuote(s[j - 1])
    ensures TrimEnd(s[i..]) == s[i..j]
  {
    var t := s[i..];
    assert t[j - i - 1] == s[j - 1];
    forall k | j - i <= k < |t| ensures IsQuote(t[k]) { assert t[k] == s[k + i]; }
    TrimEndAt(t, j - i);
    assert t[..j - i] == s[i..j];
  }

  /** Quotes before `i`, non-quotes at `i` and `j - 1`, quotes from `j` on: the trim cuts out `s[i..j]`. */
  lemma TrimCutsAt(s: string, i: nat, j: nat)
    requires i < j <= |s|
    requires Unquoted(s, i, j)
    requires !IsQuote(s[i]) && !IsQuote(s[j - 1])
    ensures Trim(s) == s[i..j]
  {
    TrimStartAt(s, i);
    TrimEndOfSuffix(s, i, j);
  }

  /** A text of quotes only trims to nothing. */
  lemma TrimAllQuotes(s: string)
    requires forall k | 0 <= k < |s| :: IsQuote(s[k])
    ensures Trim(s) == []
  {
    TrimStartAt(s, |s|);
    assert TrimStart(s) == [];
  }

  /**
   * The trim is determined by its two promises: whenever removing only
   * quotes from both ends leaves `s[i..j]` with unquoted ends, that is the
   * trimmed text.
   */
  lemma TrimUnique(s: string, i: nat, j: nat)
    requires i <= j <= |s|
    requires Unquoted(s, i, j)
    requires QuoteFreeEnds(s[i..j])
    ensures Trim(s) == s[i..j]
  {
    if i < j {
      assert s[i..j][0] == s[i] && s[i..j][j - i - 1] == s[j - 1];
      TrimCutsAt(s, i, j);
    } else {
      forall k | 0 <= k < |s| ensures IsQuote(s[k]) { assert k < i || j <= k; }
      TrimAllQuotes(s);
    }
  }

  /** Trimming an already trimmed text changes nothing. */
  lemma TrimIdempotent(s: string)
    ensures Trim(Trim(s)) == Trim(s)
  {
    var t := Trim(s);
    assert t[0..|t|] == t;
    TrimUnique(t, 0, |t|);
  }

  /** A text whose ends are not quotes, such as one starting with a space, is kept whole. */
  lemma TrimKeepsUnquotedEnds(s: string)
    requires QuoteFreeEnds(s)
    ensures Trim(s) == s
  {
    assert s[0..|s|] == s;
    TrimUnique(s, 0, |s|);
  }

  /** Quotes wrapped around a text with unquoted ends are exactly what the trim removes. */
  lemma TrimStripsWrapping(open: string, body: string, close: string)
    requires forall k | 0 <= k < |open| :: IsQuote(open[k])
    requires forall k | 0 <= k < |close| :: IsQuote(close[k])
    requires QuoteFreeEnds(body)
    ensures Trim(open + body + close) == body
  {
    var s := open + body + close;
    assert s[|open|..|open| + |body|] == body;
    assert forall k | |open| + |body| <= k < |s| :: s[k] == close[k - |open| - |body|];
    TrimUnique(s, |open|, |open| + |body|);
  }
}
