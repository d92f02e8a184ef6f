/** The string operations the ASCII path relies on: substring containment,
    removal of every occurrence of a keyword, whitespace trimming and splitting
    (the boost::algorithm calls of the source), and getline over a byte file. */
module Text {
  import opened StlTypes

  /** The classic-locale `isspace` used by boost's `is_space()`. */
  predicate IsSpace(c: char)
  {
    c == ' ' || c == '\t' || c == '\n' || c == '\r' || c == '\U{000B}' || c == '\U{000C}'
  }

  predicate NoSpace(s: string)
  {
    forall i :: 0 <= i < |s| ==> !IsSpace(s[i])
  }

  predicate AllSpace(s: string)
  {
    forall i :: 0 <= i < |s| ==> IsSpace(s[i])
  }

  /** `k` occurs in `s` starting at index `i`. */
  predicate OccursAt(s: string, k: string, i: nat)
  {
    i + |k| <= |s| && s[i..i + |k|] == k
  }

  /** boost::algorithm::contains: a left-to-right scan for `k`. */
  predicate Contains(s: string, k: string)
    decreases |s|
  {
    |k| <= |s| && (s[..|k|] == k || Contains(s[1..], k))
  }

  /** The scan agrees with the plain definition of a substring occurrence. */
  lemma {:induction false} ContainsIffOccurs(s: string, k: string)
    ensures Contains(s, k) <==> exists i: nat :: OccursAt(s, k, i)
    decreases |s|
  {
    if |k| <= |s| && s[..|k|] != k {
      ContainsIffOccurs(s[1..], k);
      if Contains(s[1..], k) {
        var i: nat :| OccursAt(s[1..], k, i);
        assert s[i + 1..i + 1 + |k|] == s[1..][i..i + |k|];
        assert OccursAt(s, k, i + 1);
      } else {
        forall i: nat | OccursAt(s, k, i) ensures false {
          if i > 0 {
            assert s[1..][i - 1..i - 1 + |k|] == s[i..i + |k|];
            assert OccursAt(s[1..], k, i - 1);
          }
        }
      }
    } else if |k| <= |s| {
      assert OccursAt(s, k, 0);
    }
  }

  /** boost::algorithm::replace_all(s, k, ""): scanning left to right, every
      occurrence of `k` is removed; removed text is not rescanned. */
  function ReplaceAll(s: string, k: string): string
    requires |k| > 0
    decreases |s|
  {
    if |s| < |k| then s
    else if s[..|k|] == k then ReplaceAll(s[|k|..], k)
    else [s[0]] + ReplaceAll(s[1..], k)
  }

  /** A string that does not contain the keyword is left as it is. */
  lemma {:induction false} ReplaceAllAbsent(s: string, k: string)
    requires |k| > 0 && !Contains(s, k)
    ensures ReplaceAll(s, k) == s
    decreases |s|
  {
    if |s| >= |k| {
      ReplaceAllAbsent(s[1..], k);
      assert s == [s[0]] + s[1..];
    }
  }

  /** The keyword does not start a text that reaches a whitespace character
      before the keyword would end, unless it already starts the part before it. */
  lemma NoKeywordAcrossSpace(x: string, c: char, y: string, k: string)
    requires NoSpace(k) && IsSpace(c) && |k| <= |x| + 1 + |y|
    requires |x| < |k| || x[..|k|] != k
    ensures (x + [c] + y)[..|k|] != k
  {
    var s := x + [c] + y;
    if |x| >= |k| {
      assert s[..|k|] == x[..|k|];
    } else {
      assert s[..|k|][|x|] == c;
    }
  }

  /** A keyword with no whitespace in it cannot straddle a whitespace
      character, so removal works on each side independently. */
  lemma {:induction false} ReplaceAllAroundSpace(x: string, c: char, y: string, k: string)
    requires |k| > 0 && NoSpace(k) && IsSpace(c)
    ensures ReplaceAll(x + [c] + y, k) == ReplaceAll(x, k) + [c] + ReplaceAll(y, k)
    decreases |x|
  {
    var s := x + [c] + y;
    if |s| < |k| {
      assert ReplaceAll(x, k) == x && ReplaceAll(y, k) == y;
    } else if |x| >= |k| && x[..|k|] == k {
      assert s[..|k|] == k;
      assert s[|k|..] == x[|k|..] + [c] + y;
      ReplaceAllAroundSpace(x[|k|..], c, y, k);
    } else {
      NoKeywordAcrossSpace(x, c, y, k);
      if x == [] {
        assert s[1..] == y;
      } else {
        assert s[1..] == x[1..] + [c] + y;
        ReplaceAllAroundSpace(x[1..], c, y, k);
        if |x| < |k| {
          assert ReplaceAll(x, k) == x && ReplaceAll(x[1..], k) == x[1..];
          assert x == [x[0]] + x[1..];
        }
      }
    }
  }

  /** A string made only of whitespace holds no keyword without whitespace. */
  lemma {:induction false} AllSpaceHasNoKeyword(s: string, k: string)
    requires |k| > 0 && NoSpace(k) && AllSpace(s)
    ensures !Contains(s, k)
    decreases |s|
  {
    if |k| <= |s| {
      assert s[..|k|][0] == s[0];
      AllSpaceHasNoKeyword(s[1..], k);
    }
  }

  /** Leading whitespace removed (boost::algorithm::trim_left). */
  function TrimLeft(s: string): string
    decreases |s|
  {
    if |s| > 0 && IsSpace(s[0]) then TrimLeft(s[1..]) else s
  }

  /** Trailing whitespace removed (boost::algorithm::trim_right). */
  function TrimRight(s: string): string
    decreases |s|
  {
    if |s| > 0 && IsSpace(s[|s| - 1]) then TrimRight(s[..|s| - 1]) else s
  }

  /** boost::algorithm::trim. */
  function Trim(s: string): string
  {
    TrimRight(TrimLeft(s))
  }

  /** Trimming removes whitespace only, and only at the two ends. */
  lemma {:induction false} TrimLeftSplits(s: string)
    ensures exists n: nat :: n <= |s| && AllSpace(s[..n]) && TrimLeft(s) == s[n..]
    ensures TrimLeft(s) == [] || !IsSpace(TrimLeft(s)[0])
    decreases |s|
  {
    if |s| > 0 && IsSpace(s[0]) {
      TrimLeftSplits(s[1..]);
      var n: nat :| n <= |s[1..]| && AllSpace(s[1..][..n]) && TrimLeft(s[1..]) == s[1..][n..];
      assert s[..n + 1] == [s[0]] + s[1..][..n];
      assert TrimLeft(s) == s[n + 1..];
    } else {
      assert AllSpace(s[..0]) && s == s[0..];
    }
  }

  lemma {:induction false} TrimRightSplits(s: string)
    ensures exists n: nat :: n <= |s| && AllSpace(s[n..]) && TrimRight(s) == s[..n]
    ensures TrimRight(s) == [] || !IsSpace(TrimRight(s)[|TrimRight(s)| - 1])
    decreases |s|
  {
    if |s| > 0 && IsSpace(s[|s| - 1]) {
      var t := s[..|s| - 1];
      TrimRightSplits(t);
      var n: nat :| n <= |t| && AllSpace(t[n..]) && TrimRight(t) == t[..n];
      assert s[n..] == t[n..] + [s[|s| - 1]];
      assert TrimRight(s) == s[..n];
    } else {
      assert AllSpace(s[|s|..]) && s == s[..|s|];
    }
  }

  lemma {:induction false} TrimLeftPadding(w: string, t: string)
    requires AllSpace(w) && (t == [] || !IsSpace(t[0]))
    ensures TrimLeft(w + t) == t
    decreases |w|
  {
    if w == [] {
      assert w + t == t;
    } else {
      assert (w + t)[1..] == w[1..] + t;
      TrimLeftPadding(w[1..], t);
    }
  }

  lemma {:induction false} TrimRightPadding(t: string, u: string)
    requires AllSpace(u) && (t == [] || !IsSpace(t[|t| - 1]))
    ensures TrimRight(t + u) == t
    decreases |u|
  {
    if u == [] {
      assert t + u == t;
    } else {
      assert (t + u)[..|t + u| - 1] == t + u[..|u| - 1];
      TrimRightPadding(t, u[..|u| - 1]);
    }
  }

  /** Trimming whitespace padding recovers the padded text. */
  lemma TrimPadding(w: string, s: string, u: string)
    requires AllSpace(w) && AllSpace(u)
    requires s == [] || (!IsSpace(s[0]) && !IsSpace(s[|s| - 1]))
    ensures Trim(w + s + u) == s
  {
    if s == [] {
      assert w + s + u == (w + u) + [];
      TrimLeftPadding(w + u, []);
    } else {
      assert w + s + u == w + (s + u);
      TrimLeftPadding(w, s + u);
      TrimRightPadding(s, u);
    }
  }

  /** Index of the first whitespace character, or |s| if there is none. */
  function FirstSpace(s: string): (i: nat)
    ensures i <= |s| && NoSpace(s[..i])
    ensures i < |s| ==> IsSpace(s[i])
    decreases |s|
  {
    if |s| == 0 then 0
    else if IsSpace(s[0]) then 0
    else 1 + FirstSpace(s[1..])
  }

  /** boost::algorithm::split(..., is_space()) without token compression:
      every whitespace character ends a piece, so a run of n whitespace
      characters yields n - 1 empty pieces, and "" yields one empty piece. */
  function Split(s: string): (pieces: seq<string>)
    ensures |pieces| >= 1
    decreases |s|
  {
    var i := FirstSpace(s);
    if i == |s| then [s] else [s[..i]] + Split(s[i + 1..])
  }

  /** The number of whitespace characters in `s`. */
  function CountSpaces(s: string): nat
    decreases |s|
  {
    if s == [] then 0 else (if IsSpace(s[0]) then 1 else 0) + CountSpaces(s[1..])
  }

  lemma {:induction false} CountSpacesAppend(a: string, b: string)
    ensures CountSpaces(a + b) == CountSpaces(a) + CountSpaces(b)
    decreases |a|
  {
    if a == [] {
      assert a + b == b;
    } else {
      assert (a + b)[1..] == a[1..] + b;
      CountSpacesAppend(a[1..], b);
    }
  }

  lemma {:induction false} NoSpaceCount(s: string)
    requires NoSpace(s)
    ensures CountSpaces(s) == 0
    decreases |s|
  {
    if s != [] { NoSpaceCount(s[1..]); }
  }

  /** Splitting at a whitespace character splits the two sides independently. */
  lemma {:induction false} SplitAroundSpace(x: string, c: char, y: string)
    requires IsSpace(c)
    ensures Split(x + [c] + y) == Split(x) + Split(y)
    decreases |x|
  {
    var s := x + [c] + y;
    assert s[..|x|] == x && s[|x|] == c;
    FirstSpaceOfPrefix(s, x);
    var i := FirstSpace(x);
    if i == |x| {
      assert Split(x) == [x];
      assert s[|x| + 1..] == y;
      assert Split(s) == [x] + Split(y);
    } else {
      assert s[..i] == x[..i];
      assert s[i + 1..] == x[i + 1..] + [c] + y;
      SplitAroundSpace(x[i + 1..], c, y);
      assert Split(x) == [x[..i]] + Split(x[i + 1..]);
      assert Split(s) == [x[..i]] + (Split(x[i + 1..]) + Split(y));
    }
  }

  /** The first whitespace of `s` inside the prefix `x`, or just after it when
      `x` holds none and `s` continues with whitespace. */
  lemma {:induction false} FirstSpaceOfPrefix(s: string, x: string)
    requires |x| < |s| && s[..|x|] == x && IsSpace(s[|x|])
    ensures FirstSpace(s) == FirstSpace(x)
    decreases |x|
  {
    if x != [] && !IsSpace(x[0]) {
      assert s[1..][..|x| - 1] == x[1..];
      FirstSpaceOfPrefix(s[1..], x[1..]);
    }
  }

  /** The pieces hold no whitespace, and there is one more piece than there
      are whitespace characters. */
  lemma {:induction false} SplitPieces(s: string)
    ensures |Split(s)| == CountSpaces(s) + 1
    ensures forall p :: p in Split(s) ==> NoSpace(p)
    decreases |s|
  {
    var i := FirstSpace(s);
    if i == |s| {
      assert s[..i] == s;
      NoSpaceCount(s);
    } else {
      SplitPieces(s[i + 1..]);
      assert s == s[..i] + [s[i]] + s[i + 1..];
      CountSpacesAppend(s[..i] + [s[i]], s[i + 1..]);
      CountSpacesAppend(s[..i], [s[i]]);
      NoSpaceCount(s[..i]);
    }
  }

  /** A piece without whitespace is its own split. */
  lemma SplitNoSpace(s: string)
    requires NoSpace(s)
    ensures Split(s) == [s]
  {
  }

  // ---- getline over a byte file ----

  /** A byte read as a character. */
  function ToChar(b: Byte): char
  {
    b as char
  }

  function Chars(bs: seq<Byte>): (s: string)
    ensures |s| == |bs| && forall i :: 0 <= i < |bs| ==> s[i] == ToChar(bs[i])
  {
    seq(|bs|, i requires 0 <= i < |bs| => ToChar(bs[i]))
  }

  const Newline: Byte := 10

  /** Index of the first newline byte, or |bs|. */
  function NewlineIndex(bs: seq<Byte>): (i: nat)
    ensures i <= |bs| && Newline !in bs[..i]
    ensures i < |bs| ==> bs[i] == Newline
    decreases |bs|
  {
    if |bs| == 0 then 0
    else if bs[0] == Newline then 0
    else 1 + NewlineIndex(bs[1..])
  }

  /** The lines std::getline returns, one call after another, until it fails:
      each line ends before a newline (which is consumed), a final line
      without a newline is still returned, and an empty rest fails. */
  function GetLines(bs: seq<Byte>): (lines: seq<string>)
    ensures bs != [] ==> |lines| >= 1
    decreases |bs|
  {
    if bs == [] then []
    else
      var k := NewlineIndex(bs);
      [Chars(bs[..k])] + (if k == |bs| then [] else GetLines(bs[k + 1..]))
  }

  /** The text held by `line` after the first getline: empty when the file is empty. */
  function FirstLine(bs: seq<Byte>): string
  {
    Chars(bs[..NewlineIndex(bs)])
  }

  /** A line never holds the newline that ended it. */
  lemma {:induction false} LinesHaveNoNewline(bs: seq<Byte>)
    ensures forall l :: l in GetLines(bs) ==> '\n' !in l
    decreases |bs|
  {
    if bs != [] {
      var k := NewlineIndex(bs);
      forall j | 0 <= j < k ensures Chars(bs[..k])[j] != '\n' {
        assert bs[..k][j] == bs[j];
        assert bs[j] in bs[..k];
      }
      if k < |bs| { LinesHaveNoNewline(bs[k + 1..]); }
    }
  }

  /** getline splits the file at its first newline: the first line is what
      precedes it, and the later lines are those of what follows. */
  lemma {:induction false} GetLinesAtNewline(a: seq<Byte>, rest: seq<Byte>)
    requires Newline !in a
    ensures GetLines(a + [Newline] + rest) == [Chars(a)] + GetLines(rest)
    ensures FirstLine(a + [Newline] + rest) == Chars(a)
  {
    var bs := a + [Newline] + rest;
    NewlineIndexOfPrefix(bs, a);
    assert bs[..|a|] == a;
    assert bs[|a| + 1..] == rest;
  }

  lemma {:induction false} NewlineIndexOfPrefix(bs: seq<Byte>, a: seq<Byte>)
    requires Newline !in a && |a| < |bs| && bs[..|a|] == a && bs[|a|] == Newline
    ensures NewlineIndex(bs) == |a|
    decreases |a|
  {
    if a != [] {
      assert a[0] in a;
      assert bs[1..][..|a| - 1] == a[1..];
      assert forall b :: b in a[1..] ==> b in a;
      NewlineIndexOfPrefix(bs[1..], a[1..]);
    }
  }
}
