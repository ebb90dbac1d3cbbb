/** The normalisation both endpoints apply to an email before using it as a
    key: Python's `str.strip()` followed by `str.lower()`, over ASCII. */
module EmailNormalization {

  /** Python's `str.isspace` on ASCII: tab, line feed, vertical tab, form
      feed, carriage return (9..13), the four information separators
      (28..31) and space (32). */
  predicate IsSpace(c: char) {
    var n := c as int;
    9 <= n <= 13 || 28 <= n <= 32
  }

  predicate IsUpper(c: char) {
    'A' <= c <= 'Z'
  }

  predicate AllSpace(s: string) {
    forall i :: 0 <= i < |s| ==> IsSpace(s[i])
  }

  /** `str.lower` on one ASCII character; every other character is kept. */
  function LowerChar(c: char): (d: char)
    ensures !IsUpper(d)
    ensures IsSpace(d) <==> IsSpace(c)
    ensures !IsUpper(c) ==> d == c
    ensures IsUpper(c) ==> 'a' <= d <= 'z' && d as int - c as int == 'a' as int - 'A' as int
  {
    if IsUpper(c) then (c as int + 32) as char else c
  }

  /** Removes the leading whitespace. StripLeftSuffix states what is cut. */
  function StripLeft(s: string): (r: string)
    ensures |r| <= |s|
    ensures r == [] || !IsSpace(r[0])
  {
    if s != [] && IsSpace(s[0]) then StripLeft(s[1..]) else s
  }

  /** Removes the trailing whitespace. StripRightPrefix states what is cut. */
  function StripRight(s: string): (r: string)
    ensures |r| <= |s|
    ensures r == [] || !IsSpace(r[|r| - 1])
  {
    if s != [] && IsSpace(s[|s| - 1]) then StripRight(s[..|s| - 1]) else s
  }

  /** StripLeft keeps a suffix of its input and cuts off only whitespace. */
  lemma {:induction false} StripLeftSuffix(s: string)
    ensures StripLeft(s) == s[|s| - |StripLeft(s)|..]
    ensures AllSpace(s[..|s| - |StripLeft(s)|])
  {
    if s != [] && IsSpace(s[0]) {
      var r := StripLeft(s[1..]);
      StripLeftSuffix(s[1..]);
      assert s[..|s| - |r|] == [s[0]] + s[1..][..|s| - 1 - |r|];
    }
  }

  /** StripRight keeps a prefix of its input and cuts off only whitespace. */
  lemma {:induction false} StripRightPrefix(s: string)
    ensures StripRight(s) == s[..|StripRight(s)|]
    ensures AllSpace(s[|StripRight(s)|..])
  {
    if s != [] && IsSpace(s[|s| - 1]) {
      var r := StripRight(s[..|s| - 1]);
      StripRightPrefix(s[..|s| - 1]);
      assert s[|r|..] == s[..|s| - 1][|r|..] + [s[|s| - 1]];
    }
  }

  /** `str.strip()` with no argument: the part of `s` between its leading
      and its trailing whitespace (StripSplit states the split). */
  function Strip(s: string): (r: string)
    ensures |r| <= |s|
    ensures r == [] || (!IsSpace(r[0]) && !IsSpace(r[|r| - 1]))
  {
    var left := StripLeft(s);
    StripRightPrefix(left);
    StripRight(left)
  }

  /** `str.lower()`: every character mapped by LowerChar, in place
      (LowerPointwise). */
  function Lower(s: string): (r: string)
    ensures |r| == |s|
  {
    if s == [] then [] else [LowerChar(s[0])] + Lower(s[1..])
  }

  lemma {:induction false} LowerPointwise(s: string)
    ensures forall i :: 0 <= i < |s| ==> Lower(s)[i] == LowerChar(s[i])
  {
    if s != [] {
      LowerPointwise(s[1..]);
      assert forall i :: 1 <= i < |s| ==> Lower(s)[i] == Lower(s[1..])[i - 1];
    }
  }

  /** A string that normalisation has nothing to do to: no upper-case ASCII
      letter and no whitespace at either end. */
  predicate NormalForm(s: string) {
    && (forall i :: 0 <= i < |s| ==> !IsUpper(s[i]))
    && (s == [] || (!IsSpace(s[0]) && !IsSpace(s[|s| - 1])))
  }

  /** `email.strip().lower()`, as `register` and `login` compute it
      (NormalizeNormalForm states what it produces). */
  function Normalize(s: string): (r: string)
    ensures |r| <= |s|
  {
    Lower(Strip(s))
  }

  /** Every key is in normal form. */
  lemma NormalizeNormalForm(s: string)
    ensures NormalForm(Normalize(s))
  {
    var m := Strip(s);
    LowerPointwise(m);
  }

  lemma {:induction false} LowerConcat(a: string, b: string)
    ensures Lower(a + b) == Lower(a) + Lower(b)
  {
    if a == [] {
      assert a + b == b;
    } else {
      assert (a + b)[0] == a[0];
      assert (a + b)[1..] == a[1..] + b;
      LowerConcat(a[1..], b);
    }
  }

  /** Leading whitespace in front of a string that does not start with
      whitespace is exactly what StripLeft takes away. */
  lemma {:induction false} StripLeftOfPadded(w: string, m: string)
    requires AllSpace(w)
    requires m == [] || !IsSpace(m[0])
    ensures StripLeft(w + m) == m
  {
    if w == [] {
      assert w + m == m;
    } else {
      assert (w + m)[0] == w[0];
      assert (w + m)[1..] == w[1..] + m;
      StripLeftOfPadded(w[1..], m);
    }
  }

  /** Trailing whitespace behind a string that does not end with whitespace
      is exactly what StripRight takes away. */
  lemma {:induction false} StripRightOfPadded(m: string, w: string)
    requires AllSpace(w)
    requires m == [] || !IsSpace(m[|m| - 1])
    ensures StripRight(m + w) == m
  {
    if w == [] {
      assert m + w == m;
    } else {
      var n := |m + w|;
      assert (m + w)[n - 1] == w[|w| - 1];
      assert (m + w)[..n - 1] == m + w[..|w| - 1];
      StripRightOfPadded(m, w[..|w| - 1]);
    }
  }

  /** Strip recovers the core of any whitespace-padded string whose core has
      no whitespace at either end. */
  lemma StripOfPadded(w1: string, m: string, w2: string)
    requires AllSpace(w1) && AllSpace(w2)
    requires m == [] || (!IsSpace(m[0]) && !IsSpace(m[|m| - 1]))
    ensures Strip(w1 + m + w2) == m
  {
    if m == [] {
      assert w1 + m + w2 == (w1 + w2) + m;
      StripLeftOfPadded(w1 + w2, m);
    } else {
      assert w1 + m + w2 == w1 + (m + w2);
      StripLeftOfPadded(w1, m + w2);
      StripRightOfPadded(m, w2);
    }
  }

  /** A string with no whitespace at its ends and no upper-case letter is
      its own normal form. */
  lemma NormalizeFixedPoint(s: string)
    requires NormalForm(s)
    ensures Normalize(s) == s
  {
    StripOfPadded([], s, []);
    assert [] + s + [] == s;
    LowerPointwise(s);
    assert Lower(s) == s;
  }

  /** Normalising twice gives the same key as normalising once. */
  lemma NormalizeIdempotent(s: string)
    ensures Normalize(Normalize(s)) == Normalize(s)
  {
    NormalizeNormalForm(s);
    NormalizeFixedPoint(Normalize(s));
  }

  lemma AllSpaceConcat(a: string, b: string)
    requires AllSpace(a) && AllSpace(b)
    ensures AllSpace(a + b)
  {
    forall k | 0 <= k < |a + b| ensures IsSpace((a + b)[k]) {
      if k < |a| { assert (a + b)[k] == a[k]; } else { assert (a + b)[k] == b[k - |a|]; }
    }
  }

  /** Strip splits a string into its whitespace ends and its core. */
  lemma StripSplit(s: string) returns (a: string, b: string)
    ensures AllSpace(a) && AllSpace(b)
    ensures s == a + Strip(s) + b
  {
    var left := StripLeft(s);
    StripLeftSuffix(s);
    StripRightPrefix(left);
    var m := StripRight(left);
    a, b := s[..|s| - |left|], left[|m|..];
    assert left == m + b;
    assert s == a + left;
  }

  /** Whitespace around a string never changes what Strip keeps. */
  lemma StripIgnoresPadding(w1: string, s: string, w2: string)
    requires AllSpace(w1) && AllSpace(w2)
    ensures Strip(w1 + s + w2) == Strip(s)
  {
    var m := Strip(s);
    var a, b := StripSplit(s);
    AllSpaceConcat(w1, a);
    AllSpaceConcat(b, w2);
    var p1, p2 := w1 + a, b + w2;
    assert w1 + s + w2 == p1 + m + p2;
    StripOfPadded(p1, m, p2);
  }

  /** Whitespace around an email never changes its key. */
  lemma NormalizeIgnoresPadding(w1: string, s: string, w2: string)
    requires AllSpace(w1) && AllSpace(w2)
    ensures Normalize(w1 + s + w2) == Normalize(s)
  {
    StripIgnoresPadding(w1, s, w2);
  }

  /** Lower keeps whitespace whitespace. */
  lemma LowerAllSpace(s: string)
    requires AllSpace(s)
    ensures AllSpace(Lower(s))
  {
    LowerPointwise(s);
  }

  /** Lowering before or after stripping gives the same string, because
      lowering never turns whitespace into non-whitespace or back. */
  lemma StripLowerCommute(s: string)
    ensures Strip(Lower(s)) == Lower(Strip(s))
  {
    var m := Strip(s);
    var a, b := StripSplit(s);
    LowerConcat3(a, m, b);
    LowerAllSpace(a);
    LowerAllSpace(b);
    LowerKeepsEnds(m);
    StripOfPadded(Lower(a), Lower(m), Lower(b));
  }

  lemma LowerConcat3(a: string, m: string, b: string)
    ensures Lower(a + m + b) == Lower(a) + Lower(m) + Lower(b)
  {
    LowerConcat(a + m, b);
    LowerConcat(a, m);
  }

  /** Lower keeps a string free of whitespace at its ends. */
  lemma LowerKeepsEnds(m: string)
    requires m == [] || (!IsSpace(m[0]) && !IsSpace(m[|m| - 1]))
    ensures Lower(m) == [] || (!IsSpace(Lower(m)[0]) && !IsSpace(Lower(m)[|m| - 1]))
  {
    LowerPointwise(m);
  }

  /** Two emails that differ only in the case of ASCII letters have the same
      key. */
  lemma NormalizeIgnoresCase(a: string, b: string)
    requires |a| == |b|
    requires forall i :: 0 <= i < |a| ==> LowerChar(a[i]) == LowerChar(b[i])
    ensures Normalize(a) == Normalize(b)
  {
    LowerPointwise(a);
    LowerPointwise(b);
    assert Lower(a) == Lower(b);
    StripLowerCommute(a);
    StripLowerCommute(b);
  }

  /** "a@b.com" is already in normal form. */
  lemma SampleKeyFixed()
    ensures Normalize("a@b.com") == "a@b.com"
  {
    var k: string := "a@b.com";
    assert !IsSpace(k[0]) && !IsSpace(k[6]);
    forall i | 0 <= i < |k| ensures !IsUpper(k[i]) {
    }
    NormalizeFixedPoint(k);
  }

  /** "A@B.com" differs from "a@b.com" only in case. */
  lemma SampleCase()
    ensures Normalize("A@B.com") == Normalize("a@b.com")
  {
    var a: string, b: string := "A@B.com", "a@b.com";
    forall i | 0 <= i < |a| ensures LowerChar(a[i]) == LowerChar(b[i]) {
    }
    NormalizeIgnoresCase(a, b);
  }

  /** "A@B.com " is "A@B.com" with a space behind it. */
  lemma SamplePadding()
    ensures Normalize("A@B.com ") == Normalize("A@B.com")
  {
    var s: string, w: string := "A@B.com", " ";
    assert AllSpace(w) by { assert w[0] == ' '; }
    NormalizeIgnoresPadding([], s, w);
    assert [] + s + w == "A@B.com ";
  }

  /** The collision the source relies on: "A@B.com " and "a@b.com" name the
      same account. */
  lemma NormalizeSample()
    ensures Normalize("a@b.com") == "a@b.com"
    ensures Normalize("A@B.com ") == "a@b.com"
  {
    SampleKeyFixed();
    SampleCase();
    SamplePadding();
  }
}
