/** String primitives the intake pipeline relies on: Python's str.strip(),
    str.split(sep), str.replace(old, new) for single characters, str.endswith
    and an ASCII str.lower(). */
module Text {

  /** The characters Python's str.isspace() accepts, which str.strip() with no
      argument removes: the space, \t \n \v \f \r, the information
      separators 0x1C-0x1F, NEL, and the Unicode space, line and paragraph
      separators. */
  predicate IsSpace(c: char) {
    var n := c as int;
    n == 0x20 || 0x09 <= n <= 0x0D || 0x1C <= n <= 0x1F || n == 0x85 || n == 0xA0 ||
    n == 0x1680 || 0x2000 <= n <= 0x200A || n == 0x2028 || n == 0x2029 ||
    n == 0x202F || n == 0x205F || n == 0x3000
  }

  ghost predicate AllSpace(s: string) {
    forall c :: c in s ==> IsSpace(c)
  }

  lemma AllSpaceCons(w: string)
    requires w != [] && AllSpace(w)
    ensures IsSpace(w[0]) && AllSpace(w[1..])
  {
    assert w[0] in w && forall d :: d in w[1..] ==> d in w;
  }

  lemma AllSpaceSnoc(w: string)
    requires w != [] && AllSpace(w)
    ensures IsSpace(w[|w| - 1]) && AllSpace(w[..|w| - 1])
  {
    assert w[|w| - 1] in w && forall d :: d in w[..|w| - 1] ==> d in w;
  }

  /** Neither end of `s` is whitespace. */
  predicate Trimmed(s: string) {
    s == [] || (!IsSpace(s[0]) && !IsSpace(s[|s| - 1]))
  }

  /** str.lstrip(): drops leading whitespace. */
  function TrimStart(s: string): string
    decreases |s|
  {
    if s != [] && IsSpace(s[0]) then TrimStart(s[1..]) else s
  }

  /** str.rstrip(): drops trailing whitespace. */
  function TrimEnd(s: string): string
    decreases |s|
  {
    if s != [] && IsSpace(s[|s| - 1]) then TrimEnd(s[..|s| - 1]) else s
  }

  /** str.strip(): both ends trimmed of whitespace. */
  function Strip(s: string): string {
    TrimEnd(TrimStart(s))
  }

  /** What lstrip leaves is a suffix, it starts with no whitespace, and all
      that it dropped is whitespace. */
  lemma {:induction false} TrimStartSuffix(s: string) returns (lo: nat)
    ensures lo <= |s| && TrimStart(s) == s[lo..]
    ensures AllSpace(s[..lo])
    ensures TrimStart(s) == [] || !IsSpace(TrimStart(s)[0])
    decreases |s|
  {
    if s != [] && IsSpace(s[0]) {
      var k := TrimStartSuffix(s[1..]);
      lo := k + 1;
      assert s[..lo] == [s[0]] + s[1..][..k];
      assert s[1..][k..] == s[lo..];
    } else {
      lo := 0;
    }
  }

  /** What rstrip leaves is a prefix, it ends with no whitespace, and all that
      it dropped is whitespace. */
  lemma {:induction false} TrimEndPrefix(s: string)
    ensures |TrimEnd(s)| <= |s| && TrimEnd(s) == s[..|TrimEnd(s)|]
    ensures AllSpace(s[|TrimEnd(s)|..])
    ensures TrimEnd(s) == [] || !IsSpace(TrimEnd(s)[|TrimEnd(s)| - 1])
    decreases |s|
  {
    if s != [] && IsSpace(s[|s| - 1]) {
      var p := s[..|s| - 1];
      TrimEndPrefix(p);
      var n := |TrimEnd(p)|;
      assert s[n..] == p[n..] + [s[|s| - 1]];
      assert p[..n] == s[..n];
    }
  }

  /** What str.strip() returns is the infix of `s` starting at `lo`, neither of
      its ends is whitespace, and all that lies outside it is whitespace. */
  lemma StripInfix(s: string) returns (lo: nat)
    ensures lo + |Strip(s)| <= |s|
    ensures Strip(s) == s[lo..lo + |Strip(s)|]
    ensures AllSpace(s[..lo]) && AllSpace(s[lo + |Strip(s)|..])
    ensures Trimmed(Strip(s))
  {
    var t := TrimStart(s);
    lo := TrimStartSuffix(s);
    TrimEndPrefix(t);
    var r := TrimEnd(t);
    assert s[lo..lo + |r|] == t[..|r|];
    assert s[lo + |r|..] == t[|r|..];
    assert r != [] ==> r[0] == t[0];
  }

  /** The text around the stripped part: whitespace on both sides. */
  lemma StripSurround(s: string) returns (w1: string, w2: string)
    ensures s == w1 + (Strip(s) + w2)
    ensures AllSpace(w1) && AllSpace(w2)
  {
    var lo := StripInfix(s);
    var hi := lo + |Strip(s)|;
    w1, w2 := s[..lo], s[hi..];
    assert s == s[..lo] + (s[lo..hi] + s[hi..]);
  }

  lemma StripIsTrimmed(s: string)
    ensures Trimmed(Strip(s))
  {
    var _ := StripInfix(s);
  }

  /** Stripping a string that is already trimmed changes nothing; so stripping
      is idempotent. */
  lemma StripTrimmed(s: string)
    requires Trimmed(s)
    ensures Strip(s) == s
  {
    assert TrimStart(s) == s;
  }

  lemma StripIdempotent(s: string)
    ensures Strip(Strip(s)) == Strip(s)
  {
    StripIsTrimmed(s);
    StripTrimmed(Strip(s));
  }

  /** A character that is not whitespace survives stripping wherever it was,
      and stripping invents no characters. */
  lemma StripKeepsNonSpace(s: string, c: char)
    requires !IsSpace(c)
    ensures c in Strip(s) <==> c in s
  {
    var lo := StripInfix(s);
    var hi := lo + |Strip(s)|;
    assert s == s[..lo] + Strip(s) + s[hi..];
  }

  lemma {:induction false} TrimStartSnoc(s: string, c: char)
    ensures TrimStart(s + [c]) == if TrimStart(s) == [] && IsSpace(c) then [] else TrimStart(s) + [c]
    decreases |s|
  {
    if s == [] {
      assert [c][1..] == [];
    } else {
      assert (s + [c])[0] == s[0] && (s + [c])[1..] == s[1..] + [c];
      if IsSpace(s[0]) {
        TrimStartSnoc(s[1..], c);
      }
    }
  }

  /** Whitespace added at either end of a string does not change what
      str.strip() returns. */
  lemma StripConsSpace(c: char, s: string)
    requires IsSpace(c)
    ensures Strip([c] + s) == Strip(s)
  {
    assert ([c] + s)[1..] == s;
    assert TrimStart([c] + s) == TrimStart(s);
  }

  lemma StripSnocSpace(s: string, c: char)
    requires IsSpace(c)
    ensures Strip(s + [c]) == Strip(s)
  {
    TrimStartSnoc(s, c);
    var t := TrimStart(s);
    if t != [] {
      assert (t + [c])[..|t|] == t;
    }
  }

  /** Whitespace in front of or after a string does not change what
      str.strip() returns; an all-whitespace string strips to nothing. */
  lemma {:induction false} StripPrependSpace(a: string, b: string)
    requires AllSpace(a)
    ensures Strip(a + b) == Strip(b)
    decreases |a|
  {
    if a == [] {
      assert a + b == b;
    } else {
      AllSpaceCons(a);
      StripPrependSpace(a[1..], b);
      assert a + b == [a[0]] + (a[1..] + b);
      StripConsSpace(a[0], a[1..] + b);
    }
  }

  lemma {:induction false} StripAppendSpace(a: string, b: string)
    requires AllSpace(b)
    ensures Strip(a + b) == Strip(a)
    decreases |b|
  {
    if b == [] {
      assert a + b == a;
    } else {
      AllSpaceSnoc(b);
      var b' := b[..|b| - 1];
      StripAppendSpace(a, b');
      assert a + b == (a + b') + [b[|b| - 1]];
      StripSnocSpace(a + b', b[|b| - 1]);
    }
  }

  lemma StripAllSpace(a: string)
    requires AllSpace(a)
    ensures Strip(a) == []
  {
    StripPrependSpace(a, []);
    assert a + [] == a;
  }

  /** str.split(sep) for a one-character separator, generalised to a set of
      separator characters: the pieces between consecutive separators, in
      order; the empty string gives one empty piece. */
  function Split(s: string, seps: set<char>): (pieces: seq<string>)
    ensures |pieces| >= 1
    decreases |s|
  {
    if s == [] then [[]]
    else
      var rest := Split(s[1..], seps);
      if s[0] in seps then [[]] + rest else [[s[0]] + rest[0]] + rest[1..]
  }

  /** No piece contains a separator. */
  lemma {:induction false} SplitPiecesFree(s: string, seps: set<char>)
    ensures forall k, j :: 0 <= k < |Split(s, seps)| && 0 <= j < |Split(s, seps)[k]| ==> Split(s, seps)[k][j] !in seps
    decreases |s|
  {
    if s != [] {
      SplitPiecesFree(s[1..], seps);
      var rest := Split(s[1..], seps);
      if s[0] !in seps {
        var first := [s[0]] + rest[0];
        assert forall j :: 0 < j < |first| ==> first[j] == rest[0][j - 1];
      }
    }
  }

  /** sep.join(pieces), the inverse of splitting on a single separator. */
  function Join(pieces: seq<string>, sep: char): string
    decreases |pieces|
  {
    if pieces == [] then []
    else if |pieces| == 1 then pieces[0]
    else pieces[0] + [sep] + Join(pieces[1..], sep)
  }

  lemma {:induction false} JoinSplit(s: string, sep: char)
    ensures Join(Split(s, {sep}), sep) == s
    decreases |s|
  {
    if s != [] {
      JoinSplit(s[1..], sep);
      var rest := Split(s[1..], {sep});
      if s[0] == sep {
        assert ([[]] + rest)[1..] == rest;
      } else {
        assert ([[s[0]] + rest[0]] + rest[1..])[1..] == rest[1..];
        assert s == [s[0]] + s[1..];
      }
    }
  }

  /** The pieces with `x` put in front of the first one. */
  function ExtendFirst(x: char, p: seq<string>): (q: seq<string>)
    requires |p| >= 1
  {
    [[x] + p[0]] + p[1..]
  }

  /** Splitting a string with one more character in front. */
  lemma SplitCons(c: char, v: string, seps: set<char>)
    ensures Split([c] + v, seps) == if c in seps then [[]] + Split(v, seps) else ExtendFirst(c, Split(v, seps))
  {
    assert ([c] + v)[0] == c && ([c] + v)[1..] == v;
  }

  /** A separator splits the string into the pieces before it followed by the
      pieces after it. */
  lemma {:induction false} SplitAtSeparator(x: string, c: char, y: string, seps: set<char>)
    requires c in seps
    ensures Split(x + [c] + y, seps) == Split(x, seps) + Split(y, seps)
    decreases |x|
  {
    if x == [] {
      assert x + [c] + y == [c] + y;
      SplitCons(c, y, seps);
    } else {
      var d, x' := x[0], x[1..];
      assert x + [c] + y == [d] + (x' + [c] + y) && x == [d] + x';
      SplitAtSeparator(x', c, y, seps);
      SplitConsPrefix(d, x' + [c] + y, x', Split(y, seps), seps);
    }
  }

  /** A character put in front of two strings whose pieces differ only by a
      common tail changes both in the same way. */
  lemma SplitConsPrefix(d: char, r: string, u: string, q: seq<string>, seps: set<char>)
    requires Split(r, seps) == Split(u, seps) + q
    ensures Split([d] + r, seps) == Split([d] + u, seps) + q
  {
    SplitCons(d, r, seps);
    SplitCons(d, u, seps);
    if d in seps {
      ConsConcat([], Split(u, seps), q);
    } else {
      ExtendFirstConcat(d, Split(u, seps), q);
    }
  }

  lemma ConsConcat(a: string, p: seq<string>, q: seq<string>)
    ensures [a] + (p + q) == ([a] + p) + q
  {
  }

  /** The pieces of `x + y`: those of `x`, with the last one joined to the
      first piece of `y`, then the rest of those of `y`. */
  function Glue(p: seq<string>, q: seq<string>): seq<string>
    requires |p| >= 1 && |q| >= 1
  {
    p[..|p| - 1] + [p[|p| - 1] + q[0]] + q[1..]
  }

  lemma GlueCons(a: string, p: seq<string>, q: seq<string>)
    requires |p| >= 1 && |q| >= 1
    ensures Glue([a] + p, q) == [a] + Glue(p, q)
  {
    assert ([a] + p)[..|p|] == [a] + p[..|p| - 1];
  }

  lemma GlueExtendFirst(d: char, p: seq<string>, q: seq<string>)
    requires |p| >= 1 && |q| >= 1
    ensures ExtendFirst(d, Glue(p, q)) == Glue(ExtendFirst(d, p), q)
  {
    var n := |p|;
    if n == 1 {
      assert ([d] + p[0]) + q[0] == [d] + (p[0] + q[0]);
    } else {
      assert Glue(p, q)[1..] == p[1..n - 1] + [p[n - 1] + q[0]] + q[1..];
      assert ExtendFirst(d, p)[..n - 1] == [[d] + p[0]] + p[1..n - 1];
    }
  }

  /** Splitting a concatenation. */
  lemma {:induction false} SplitConcat(x: string, y: string, seps: set<char>)
    ensures Split(x + y, seps) == Glue(Split(x, seps), Split(y, seps))
    decreases |x|
  {
    if x == [] {
      assert x + y == y;
      var q := Split(y, seps);
      assert [] + q[0] == q[0];
      assert q == [q[0]] + q[1..];
    } else {
      var d, x' := x[0], x[1..];
      assert x + y == [d] + (x' + y);
      SplitCons(d, x' + y, seps);
      SplitCons(d, x', seps);
      SplitConcat(x', y, seps);
      var p, q := Split(x', seps), Split(y, seps);
      if d in seps {
        GlueCons([], p, q);
      } else {
        GlueExtendFirst(d, p, q);
      }
    }
  }

  /** Every piece of an all-whitespace string is all whitespace. */
  lemma {:induction false} SplitAllSpace(w: string, seps: set<char>)
    requires AllSpace(w)
    ensures forall k :: 0 <= k < |Split(w, seps)| ==> AllSpace(Split(w, seps)[k])
    decreases |w|
  {
    if w != [] {
      AllSpaceCons(w);
      SplitAllSpace(w[1..], seps);
      assert w == [w[0]] + w[1..];
      SplitCons(w[0], w[1..], seps);
      var rest := Split(w[1..], seps);
      if w[0] !in seps {
        assert forall c :: c in [w[0]] + rest[0] ==> c == w[0] || c in rest[0];
      }
    }
  }

  /** The pieces of a string after leading whitespace: whitespace-only pieces,
      then a whitespace-only start joined to the first piece of the rest. */
  lemma SplitAfterSpace(w: string, u: string, seps: set<char>) returns (head: seq<string>, last: string)
    requires AllSpace(w)
    ensures Split(w + u, seps) == head + [last + Split(u, seps)[0]] + Split(u, seps)[1..]
    ensures AllSpace(last) && forall k :: 0 <= k < |head| ==> AllSpace(head[k])
  {
    SplitConcat(w, u, seps);
    SplitAllSpace(w, seps);
    var p, q := Split(w, seps), Split(u, seps);
    head, last := p[..|p| - 1], p[|p| - 1];
    assert forall k :: 0 <= k < |head| ==> head[k] == p[k];
  }

  /** The pieces of a string before trailing whitespace, symmetrically. */
  lemma SplitBeforeSpace(u: string, w: string, seps: set<char>) returns (first: string, tail: seq<string>)
    requires AllSpace(w)
    ensures Split(u + w, seps) ==
      (Split(u, seps)[..|Split(u, seps)| - 1] + [Split(u, seps)[|Split(u, seps)| - 1] + first]) + tail
    ensures AllSpace(first) && forall k :: 0 <= k < |tail| ==> AllSpace(tail[k])
  {
    SplitConcat(u, w, seps);
    SplitAllSpace(w, seps);
    var q, p := Split(u, seps), Split(w, seps);
    first, tail := p[0], p[1..];
    assert forall k :: 0 <= k < |tail| ==> tail[k] == p[k + 1];
  }

  lemma ExtendFirstConcat(x: char, p: seq<string>, q: seq<string>)
    requires |p| >= 1
    ensures ExtendFirst(x, p + q) == ExtendFirst(x, p) + q
  {
    assert (p + q)[0] == p[0] && (p + q)[1..] == p[1..] + q;
  }

  /** str.replace(a, b) for single characters. */
  function ReplaceChar(s: string, a: char, b: char): (r: string)
  {
    seq(|s|, i requires 0 <= i < |s| => if s[i] == a then b else s[i])
  }

  /** Replacing every `a` by `b` and then splitting on `b` alone yields the same
      pieces as splitting the original on either character. */
  lemma {:induction false} SplitReplaced(s: string, a: char, b: char)
    ensures Split(ReplaceChar(s, a, b), {b}) == Split(s, {a, b})
    decreases |s|
  {
    if s != [] {
      assert ReplaceChar(s, a, b)[1..] == ReplaceChar(s[1..], a, b);
      SplitReplaced(s[1..], a, b);
    }
  }

  predicate EndsWith(s: string, suffix: string) {
    |suffix| <= |s| && s[|s| - |suffix|..] == suffix
  }

  /** str.lower() on the ASCII range; other characters are left alone. */
  function LowerChar(c: char): char {
    if 'A' <= c <= 'Z' then (c as int + 32) as char else c
  }

  function Lower(s: string): string {
    seq(|s|, i requires 0 <= i < |s| => LowerChar(s[i]))
  }
}
