/**
 * The header check of verifyToken in httpserver/router.go:
 * `strings.Split(header, "Bearer ")` and the test that it yields exactly two
 * pieces. Split, Index and Count follow Go's `strings` package for a
 * non-empty separator: occurrences are found left to right and do not overlap.
 */
module Bearer {
  import opened Wrappers

  const Separator := "Bearer "

  /** The separator occurs in `s` at position `i`. */
  predicate At(s: string, i: int)
  {
    0 <= i && i + |Separator| <= |s| && s[i..i + |Separator|] == Separator
  }

  /** No occurrence of the separator at all. */
  predicate Free(s: string)
  {
    forall j | 0 <= j <= |s| :: !At(s, j)
  }

  /** The first occurrence at or after `from`, or -1. */
  function IndexFrom(s: string, from: nat): (r: int)
    requires from <= |s|
    ensures r == -1 || (from <= r && At(s, r))
    ensures r == -1 ==> forall j | from <= j :: !At(s, j)
    ensures r >= 0 ==> forall j | from <= j < r :: !At(s, j)
    decreases |s| - from
  {
    if from + |Separator| > |s| then -1
    else if s[from..from + |Separator|] == Separator then from
    else IndexFrom(s, from + 1)
  }

  /** `strings.Index(s, "Bearer ")`: the first occurrence, or -1. */
  function Index(s: string): (r: int)
    ensures r == -1 <==> Free(s)
    ensures r >= 0 ==> At(s, r) && forall j | 0 <= j < r :: !At(s, j)
  {
    IndexFrom(s, 0)
  }

  /** `strings.Split(s, "Bearer ")`: the pieces between the occurrences. */
  function Split(s: string): (parts: seq<string>)
    ensures |parts| >= 1
    decreases |s|
  {
    var i := Index(s);
    if i < 0 then [s] else [s[..i]] + Split(s[i + |Separator|..])
  }

  /** `strings.Count(s, "Bearer ")`: the number of non-overlapping occurrences. */
  function Count(s: string): (n: nat)
    ensures n == 0 <==> Free(s)
    decreases |s|
  {
    var i := Index(s);
    if i < 0 then 0 else 1 + Count(s[i + |Separator|..])
  }

  /** `strings.Join(parts, "Bearer ")` */
  function Join(parts: seq<string>): (s: string)
    requires |parts| >= 1
    ensures |parts| == 1 ==> s == parts[0]
  {
    if |parts| == 1 then parts[0] else parts[0] + Separator + Join(parts[1..])
  }

  /** The text before the first occurrence holds no occurrence. */
  lemma PrefixFree(s: string)
    requires Index(s) >= 0
    ensures Free(s[..Index(s)])
  {
    var i := Index(s);
    forall j | 0 <= j <= i ensures !At(s[..i], j) {
      if At(s[..i], j) {
        assert s[..i][j..j + |Separator|] == s[j..j + |Separator|];
        assert At(s, j);
      }
    }
  }

  /** Split yields one piece more than there are occurrences. */
  lemma {:induction false} SplitLength(s: string)
    ensures |Split(s)| == Count(s) + 1
    decreases |s|
  {
    var i := Index(s);
    if i >= 0 {
      SplitLength(s[i + |Separator|..]);
    }
  }

  /** A header is its text before an occurrence, the separator, and the text after it. */
  lemma Reassemble(s: string, i: int)
    requires At(s, i)
    ensures s == s[..i] + Separator + s[i + |Separator|..]
  {
  }

  /** Joining one more piece in front. */
  lemma JoinCons(first: string, rest: seq<string>)
    requires |rest| >= 1
    ensures Join([first] + rest) == first + Separator + Join(rest)
  {
  }

  /** Joining the pieces with the separator gives the header back. */
  lemma {:induction false} JoinSplit(s: string)
    ensures Join(Split(s)) == s
    decreases |s|
  {
    var i := Index(s);
    if i >= 0 {
      var rest := s[i + |Separator|..];
      JoinSplit(rest);
      assert Split(s) == [s[..i]] + Split(rest);
      JoinCons(s[..i], Split(rest));
      Reassemble(s, i);
    }
  }

  /** No piece contains the separator. */
  lemma {:induction false} SplitPiecesFree(s: string)
    ensures forall k | 0 <= k < |Split(s)| :: Free(Split(s)[k])
    decreases |s|
  {
    var i := Index(s);
    if i >= 0 {
      var rest := s[i + |Separator|..];
      SplitPiecesFree(rest);
      PrefixFree(s);
      assert Split(s) == [s[..i]] + Split(rest);
    }
  }

  /**
   * The token verifyToken hands to validation: the second piece, when the
   * header splits into exactly two. The text before the separator is not
   * looked at.
   */
  function BearerToken(header: string): (r: Option<string>)
    ensures r.Some? <==> Count(header) == 1
    ensures r.Some? ==> header == Split(header)[0] + Separator + r.value
    ensures r.Some? ==> Free(r.value) && Free(Split(header)[0])
  {
    SplitLength(header);
    JoinSplit(header);
    SplitPiecesFree(header);
    var parts := Split(header);
    if |parts| != 2 then None
    else
      assert parts[1..] == [parts[1]];
      Some(parts[1])
  }

  /** A missing (empty) header is rejected. */
  lemma EmptyHeaderRejected()
    ensures BearerToken("") == None
  {
  }

  /** `"Bearer " + t` is accepted with token `t` whenever `t` holds no second separator. */
  lemma BearerAccepted(t: string)
    requires Free(t)
    ensures BearerToken(Separator + t) == Some(t)
  {
  }

  /**
   * Whatever precedes the separator is accepted, so long as the separator
   * first occurs right after it.
   */
  lemma {:induction false} PrefixNotChecked(p: string, t: string)
    requires forall j | 0 <= j < |p| :: !At(p + Separator, j)
    requires Free(t)
    ensures BearerToken(p + Separator + t) == Some(t)
  {
    var h := p + Separator + t;
    assert At(h, |p|) by {
      assert h[|p|..|p| + |Separator|] == Separator;
    }
    forall j | 0 <= j < |p| ensures !At(h, j) {
      if At(h, j) {
        assert h[j..j + |Separator|] == (p + Separator)[j..j + |Separator|];
        assert At(p + Separator, j);
      }
    }
    assert Index(h) == |p|;
    assert h[..|p|] == p;
    assert h[|p| + |Separator|..] == t;
    assert Split(t) == [t];
    assert Split(h) == [p] + Split(t);
  }

  /** A header under another scheme name, "Token Bearer abc", passes with token "abc". */
  lemma OtherSchemeAccepted()
    ensures BearerToken("Token Bearer abc") == Some("abc")
  {
    var p := "Token ";
    forall j | 0 <= j < |p| ensures !At(p + Separator, j) {
      assert (p + Separator)[j] != 'B' || j == |p|;
    }
    assert p + Separator + "abc" == "Token Bearer abc";
    PrefixNotChecked(p, "abc");
  }

  /** A header naming the scheme twice has three pieces and is rejected. */
  lemma {:induction false} DoubleSchemeRejected(t: string)
    requires Free(t)
    ensures BearerToken(Separator + Separator + t) == None
  {
    var h := Separator + Separator + t;
    assert At(h, 0);
    assert Index(h) == 0;
    var rest := h[|Separator|..];
    assert rest == Separator + t;
    assert At(rest, 0);
    assert Index(rest) == 0;
    assert rest[|Separator|..] == t;
    assert Split(t) == [t];
    assert Split(rest) == [rest[..0]] + Split(t);
    assert Split(h) == [h[..0]] + Split(rest);
  }
}
