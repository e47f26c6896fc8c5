/** The functions of Go's `strings` package that the alias manager calls,
    over strings whose every `char` stands for one byte of a Go string.
    Every needle the program passes is ASCII, so working on bytes or on
    characters gives the same answers. */
module GoStrings {

  /** Index of the first `c` in `s`, or `|s|` when `s` has none. */
  function FirstIndex(s: string, c: char): (r: nat)
    ensures r <= |s|
    ensures r < |s| ==> s[r] == c
    ensures forall j :: 0 <= j < r ==> s[j] != c
    ensures r == |s| <==> c !in s
  {
    if s == [] then 0
    else if s[0] == c then 0
    else 1 + FirstIndex(s[1..], c)
  }

  /** Text after the first `c` does not move it. */
  lemma {:induction false} FirstIndexAppend(a: string, b: string, c: char)
    requires c in a
    ensures FirstIndex(a + b, c) == FirstIndex(a, c)
    decreases |a|
  {
    assert (a + b)[0] == a[0];
    if a[0] != c {
      assert (a + b)[1..] == a[1..] + b;
      FirstIndexAppend(a[1..], b, c);
    }
  }

  /** Cutting a concatenation inside its first part. */
  lemma SliceAppend(a: string, b: string, k: nat)
    requires k <= |a|
    ensures (a + b)[..k] == a[..k]
    ensures (a + b)[k..] == a[k..] + b
  {
  }

  /** A prefix one element longer is the shorter prefix and that element. */
  lemma TakeOneMore<T>(s: seq<T>, i: nat)
    requires i < |s|
    ensures s[..i + 1] == s[..i] + [s[i]]
  {
  }

  /** The prefix as long as the whole sequence is the sequence. */
  lemma TakeAll<T>(s: seq<T>)
    ensures s[..|s|] == s
  {
  }

  /** A non-empty sequence is its front and its last element. */
  lemma DropLast<T>(s: seq<T>)
    requires s != []
    ensures s == s[..|s| - 1] + [s[|s| - 1]]
  {
  }

  /** Appending one element after a concatenation. */
  lemma AppendSnoc<T>(a: seq<T>, b: seq<T>, x: T)
    ensures a + (b + [x]) == (a + b) + [x]
  {
  }

  /** The first `c` after `c`-free text is right after that text. */
  lemma {:induction false} FirstIndexAfter(a: string, c: char, b: string)
    requires c !in a
    ensures FirstIndex(a + [c] + b, c) == |a|
    decreases |a|
  {
    if a != [] {
      assert (a + [c] + b)[0] == a[0];
      assert (a + [c] + b)[1..] == a[1..] + [c] + b;
      FirstIndexAfter(a[1..], c, b);
    }
  }

  /** strings.Contains(s, sub): `sub` occurs somewhere in `s`. */
  predicate Contains(s: string, sub: string)
    decreases |s|
  {
    sub <= s || (s != [] && Contains(s[1..], sub))
  }

  /** A one-character needle is contained exactly when the character occurs. */
  lemma {:induction false} ContainsChar(s: string, c: char)
    ensures Contains(s, [c]) <==> c in s
    decreases |s|
  {
    if s != [] {
      ContainsChar(s[1..], c);
      assert s == [s[0]] + s[1..];
    }
  }

  /** A string contains itself after any prefix: what an append leaves behind. */
  lemma {:induction false} ContainsSuffix(s: string, sub: string)
    ensures Contains(s + sub, sub)
    decreases |s|
  {
    if s != [] {
      assert (s + sub)[1..] == s[1..] + sub;
      ContainsSuffix(s[1..], sub);
    }
  }

  /** Text in which a two-character needle does not occur keeps it out
      when joined, unless the join itself spells the needle. */
  lemma {:induction false} NoPairConcat(a: string, b: string, pair: string)
    requires |pair| == 2
    requires !Contains(a, pair) && !Contains(b, pair)
    requires a == [] || b == [] || a[|a| - 1] != pair[0] || b[0] != pair[1]
    ensures !Contains(a + b, pair)
    decreases |a|
  {
    if a == [] {
      assert a + b == b;
    } else {
      assert (a + b)[1..] == a[1..] + b;
      NoPairConcat(a[1..], b, pair);
    }
  }

  /** strings.Replace(s, pat, rep, -1), i.e. strings.ReplaceAll, for a
      non-empty `pat`: scanning left to right, every occurrence of `pat`
      that does not overlap an earlier replaced one becomes `rep`. */
  function ReplaceAll(s: string, pat: string, rep: string): string
    requires pat != []
    decreases |s|
  {
    if s == [] then []
    else if pat <= s then rep + ReplaceAll(s[|pat|..], pat, rep)
    else [s[0]] + ReplaceAll(s[1..], pat, rep)
  }

  /** Replacing a needle that does not occur changes nothing. */
  lemma {:induction false} ReplaceAllAbsent(s: string, pat: string, rep: string)
    requires pat != []
    requires !Contains(s, pat)
    ensures ReplaceAll(s, pat, rep) == s
    decreases |s|
  {
    if s != [] {
      ReplaceAllAbsent(s[1..], pat, rep);
      assert s == [s[0]] + s[1..];
    }
  }

  /** Replacing one character works piece by piece over a concatenation. */
  lemma {:induction false} ReplaceCharConcat(a: string, b: string, c: char, rep: string)
    ensures ReplaceAll(a + b, [c], rep) == ReplaceAll(a, [c], rep) + ReplaceAll(b, [c], rep)
    decreases |a|
  {
    if a == [] {
      assert a + b == b;
    } else {
      assert (a + b)[1..] == a[1..] + b;
      ReplaceCharConcat(a[1..], b, c, rep);
      assert [c] <= a + b <==> [c] <= a;
    }
  }

  /** After replacing a character by text that lacks it, none is left. */
  lemma {:induction false} ReplaceCharRemoves(s: string, c: char, rep: string)
    requires c !in rep
    ensures c !in ReplaceAll(s, [c], rep)
    decreases |s|
  {
    if s != [] {
      ReplaceCharRemoves(s[1..], c, rep);
    }
  }

  /** A character that is neither in the needle nor in its replacement is
      in the result exactly when it was in the input. */
  lemma {:induction false} ReplaceAllKeeps(s: string, pat: string, rep: string, x: char)
    requires pat != []
    requires x !in pat && x !in rep
    ensures x in ReplaceAll(s, pat, rep) <==> x in s
    decreases |s|
  {
    if s != [] {
      if pat <= s {
        ReplaceAllKeeps(s[|pat|..], pat, rep, x);
        assert s == s[..|pat|] + s[|pat|..];
        assert s[..|pat|] == pat;
      } else {
        ReplaceAllKeeps(s[1..], pat, rep, x);
        assert s == [s[0]] + s[1..];
      }
    }
  }

  /** Replacing a two-character needle works piece by piece over a
      concatenation when no occurrence straddles the join. */
  lemma {:induction false} ReplacePairConcat(a: string, b: string, pat: string, rep: string)
    requires |pat| == 2
    requires a == [] || b == [] || a[|a| - 1] != pat[0] || b[0] != pat[1]
    ensures ReplaceAll(a + b, pat, rep) == ReplaceAll(a, pat, rep) + ReplaceAll(b, pat, rep)
    decreases |a|
  {
    if a == [] {
      assert a + b == b;
    } else if b == [] {
      assert a + b == a;
    } else if pat <= a + b {
      assert pat <= a by {
        assert a[..2] == (a + b)[..2];
      }
      assert (a + b)[2..] == a[2..] + b;
      ReplacePairConcat(a[2..], b, pat, rep);
    } else {
      assert (a + b)[1..] == a[1..] + b;
      ReplacePairConcat(a[1..], b, pat, rep);
    }
  }

  /** Replacing a needle by something shorter never lengthens the text,
      and shortens it whenever the needle occurs. */
  lemma {:induction false} ReplaceShorter(s: string, pat: string, rep: string)
    requires pat != [] && |rep| < |pat|
    ensures |ReplaceAll(s, pat, rep)| <= |s|
    ensures Contains(s, pat) ==> |ReplaceAll(s, pat, rep)| < |s|
    decreases |s|
  {
    if s != [] {
      if pat <= s {
        ReplaceShorter(s[|pat|..], pat, rep);
      } else {
        ReplaceShorter(s[1..], pat, rep);
      }
    }
  }

  /** strings.Split(s, sep) for a one-character separator: the pieces
      between successive separators, the first piece being everything
      before the first separator. */
  function Split(s: string, sep: char): (r: seq<string>)
    ensures |r| >= 1
    ensures forall i :: 0 <= i < |r| ==> sep !in r[i]
    ensures |r| == 1 <==> sep !in s
    ensures r[0] == s[..FirstIndex(s, sep)]
    decreases |s|
  {
    var i := FirstIndex(s, sep);
    if i == |s| then [s] else [s[..i]] + Split(s[i + 1..], sep)
  }

  /** The inverse of Split: the pieces glued back with the separator. */
  function Join(pieces: seq<string>, sep: char): string
    requires |pieces| >= 1
  {
    if |pieces| == 1 then pieces[0] else pieces[0] + [sep] + Join(pieces[1..], sep)
  }

  /** Split loses nothing: joining its pieces gives back the input. */
  lemma {:induction false} SplitJoin(s: string, sep: char)
    ensures Join(Split(s, sep), sep) == s
    decreases |s|
  {
    if sep in s {
      var head, rest := SplitFirst(s, sep);
      SplitJoin(rest, sep);
      JoinCons(head, Split(rest, sep), sep);
    } else {
      assert Split(s, sep) == [s];
    }
  }

  /** The piece before the first separator, and the text after it. */
  lemma SplitFirst(s: string, sep: char) returns (head: string, rest: string)
    requires sep in s
    ensures s == head + [sep] + rest && |rest| < |s|
    ensures Split(s, sep) == [head] + Split(rest, sep)
  {
    var i := FirstIndex(s, sep);
    head, rest := s[..i], s[i + 1..];
    assert s == head + [sep] + rest;
  }

  lemma JoinCons(head: string, tail: seq<string>, sep: char)
    requires |tail| >= 1
    ensures Join([head] + tail, sep) == head + [sep] + Join(tail, sep)
  {
    assert ([head] + tail)[1..] == tail;
  }

  /** Number of occurrences of `c` in `s`. */
  function Count(s: string, c: char): nat
  {
    if s == [] then 0 else (if s[0] == c then 1 else 0) + Count(s[1..], c)
  }

  lemma {:induction false} CountSplitAt(s: string, i: nat, c: char)
    requires i <= |s|
    requires forall j :: 0 <= j < i ==> s[j] != c
    ensures Count(s, c) == Count(s[i..], c)
    decreases i
  {
    if i > 0 {
      assert s[1..][i - 1..] == s[i..];
      CountSplitAt(s[1..], i - 1, c);
    }
  }

  /** Split yields one piece more than there are separators. */
  lemma {:induction false} SplitCount(s: string, sep: char)
    ensures |Split(s, sep)| == Count(s, sep) + 1
    decreases |s|
  {
    var i := FirstIndex(s, sep);
    CountSplitAt(s, i, sep);
    if i == |s| {
      assert Count(s[i..], sep) == 0;
    } else {
      assert s[i..][1..] == s[i + 1..];
      SplitCount(s[i + 1..], sep);
    }
  }

  /** A separator after separator-free text cuts exactly there. */
  lemma SplitAfter(a: string, sep: char, b: string)
    requires sep !in a
    ensures Split(a + [sep] + b, sep) == [a] + Split(b, sep)
  {
    var s := a + [sep] + b;
    FirstIndexAfter(a, sep, b);
    assert s[..|a|] == a;
    assert s[|a| + 1..] == b;
  }

  /** White space as unicode.IsSpace sees it among the ASCII characters:
      tab, newline, vertical tab, form feed, carriage return and space. */
  predicate IsSpace(c: char)
  {
    c == ' ' || '\t' <= c <= '\r'
  }

  /** strings.TrimLeftFunc(s, unicode.IsSpace). */
  function TrimLeft(s: string): (r: string)
    ensures |r| <= |s| && r == s[|s| - |r|..]
    ensures forall i :: 0 <= i < |s| - |r| ==> IsSpace(s[i])
    ensures r == [] || !IsSpace(r[0])
    decreases |s|
  {
    if s != [] && IsSpace(s[0]) then TrimLeft(s[1..]) else s
  }

  /** strings.TrimRightFunc(s, unicode.IsSpace). */
  function TrimRight(s: string): (r: string)
    ensures |r| <= |s| && r == s[..|r|]
    ensures forall i :: |r| <= i < |s| ==> IsSpace(s[i])
    ensures r == [] || !IsSpace(r[|r| - 1])
    decreases |s|
  {
    if s != [] && IsSpace(s[|s| - 1]) then TrimRight(s[..|s| - 1]) else s
  }

  /** strings.TrimSpace: `s` without its leading and trailing white space. */
  function TrimSpace(s: string): (r: string)
    ensures r == [] || (!IsSpace(r[0]) && !IsSpace(r[|r| - 1]))
    ensures |r| <= |s|
    ensures exists i, j :: 0 <= i <= j <= |s| && r == s[i..j]
              && (forall k :: 0 <= k < i ==> IsSpace(s[k]))
              && (forall k :: j <= k < |s| ==> IsSpace(s[k]))
  {
    TrimBothEnds(s, TrimLeft(s), TrimRight(TrimLeft(s)));
    TrimRight(TrimLeft(s))
  }

  /** TrimRight after TrimLeft cuts white space off both ends and keeps the
      middle. */
  lemma TrimBothEnds(s: string, left: string, r: string)
    requires left == TrimLeft(s) && r == TrimRight(left)
    ensures exists i, j :: 0 <= i <= j <= |s| && r == s[i..j]
              && (forall k :: 0 <= k < i ==> IsSpace(s[k]))
              && (forall k :: j <= k < |s| ==> IsSpace(s[k]))
  {
    TrimMiddle(s, left, r, |s| - |left|);
  }

  /** Text cut from the front at `from` and then from the back is a slice
      of the original with only white space outside it. */
  lemma TrimMiddle(s: string, left: string, r: string, from: nat)
    requires from <= |s| && left == s[from..]
    requires forall k :: 0 <= k < from ==> IsSpace(s[k])
    requires |r| <= |left| && r == left[..|r|]
    requires forall k :: |r| <= k < |left| ==> IsSpace(left[k])
    ensures exists i, j :: 0 <= i <= j <= |s| && r == s[i..j]
              && (forall k :: 0 <= k < i ==> IsSpace(s[k]))
              && (forall k :: j <= k < |s| ==> IsSpace(s[k]))
  {
    var to := from + |r|;
    forall k | to <= k < |s|
      ensures IsSpace(s[k])
    {
      assert s[k] == left[k - from];
    }
    assert r == s[from..to];
  }

  /** Trimming text that has no white space at either end changes nothing;
      in particular TrimSpace is idempotent. */
  lemma TrimSpaceKeeps(s: string)
    requires s == [] || (!IsSpace(s[0]) && !IsSpace(s[|s| - 1]))
    ensures TrimSpace(s) == s
  {
  }

  lemma TrimSpaceIdempotent(s: string)
    ensures TrimSpace(TrimSpace(s)) == TrimSpace(s)
  {
    TrimSpaceKeeps(TrimSpace(s));
  }
}
