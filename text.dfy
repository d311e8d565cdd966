/** String helpers shared by every part of the model: the JavaScript `String.prototype`
    methods the program relies on (`trim`, `indexOf`, `split`, `includes`, `toLowerCase`,
    `replace`) and `Array.prototype.join` on strings, stated over `seq<char>`. */
module Text {

  /** ECMAScript WhiteSpace and LineTerminator: what `trim` removes and what the
      regular-expression class `\s` matches. */
  predicate IsSpace(c: char) {
    || c == '\t' || c == '\n' || c == '\U{000B}' || c == '\U{000C}' || c == '\r' || c == ' '
    || c == '\U{00A0}' || c == '\U{1680}' || ('\U{2000}' <= c <= '\U{200A}')
    || c == '\U{2028}' || c == '\U{2029}' || c == '\U{202F}' || c == '\U{205F}'
    || c == '\U{3000}' || c == '\U{FEFF}'
  }

  /** Leading white space removed. */
  function TrimStart(s: string): (r: string)
    ensures |r| <= |s| && r == s[|s| - |r|..]
    ensures forall i :: 0 <= i < |s| - |r| ==> IsSpace(s[i])
    ensures r == [] || !IsSpace(r[0])
    decreases |s|
  {
    if s != [] && IsSpace(s[0]) then TrimStart(s[1..]) else s
  }

  /** Trailing white space removed. */
  function TrimEnd(s: string): (r: string)
    ensures |r| <= |s| && r == s[..|r|]
    ensures forall i :: |r| <= i < |s| ==> IsSpace(s[i])
    ensures r == [] || !IsSpace(r[|r| - 1])
    decreases |s|
  {
    if s != [] && IsSpace(s[|s| - 1]) then TrimEnd(s[..|s| - 1]) else s
  }

  /** `s.trim()` */
  function Trim(s: string): string {
    TrimEnd(TrimStart(s))
  }

  lemma TrimUnchanged(s: string)
    requires s == [] || (!IsSpace(s[0]) && !IsSpace(s[|s| - 1]))
    ensures Trim(s) == s
  {
  }

  /** `s.indexOf(c)` for a one-character needle: the first position of `c`, or -1. */
  function IndexOf(s: string, c: char): (r: int)
    ensures -1 <= r < |s|
    ensures r >= 0 ==> s[r] == c && c !in s[..r]
    ensures r < 0 <==> c !in s
    decreases |s|
  {
    if s == [] then -1
    else if s[0] == c then 0
    else
      var k := IndexOf(s[1..], c);
      if k < 0 then -1 else k + 1
  }

  lemma {:induction false} IndexOfAppend(a: string, b: string, c: char)
    ensures IndexOf(a + b, c) ==
      if c in a then IndexOf(a, c)
      else if c in b then |a| + IndexOf(b, c)
      else -1
    decreases |a|
  {
    if a != [] {
      assert (a + b)[1..] == a[1..] + b;
      IndexOfAppend(a[1..], b, c);
    } else {
      assert a + b == b;
    }
  }

  /** `s.split(c)` for a one-character separator: the maximal pieces between occurrences
      of `c`; splitting "" gives [""]. */
  function Split(s: string, c: char): (r: seq<string>)
    ensures |r| >= 1
    decreases |s|
  {
    if s == [] then [""]
    else
      var rest := Split(s[1..], c);
      if s[0] == c then [""] + rest else [[s[0]] + rest[0]] + rest[1..]
  }

  /** No piece of a split holds the separator. */
  lemma {:induction false} SplitPiecesFree(s: string, c: char)
    ensures forall i :: 0 <= i < |Split(s, c)| ==> c !in Split(s, c)[i]
    decreases |s|
  {
    if s != [] {
      SplitPiecesFree(s[1..], c);
    }
  }

  /** Text without the separator is a single piece. */
  lemma {:induction false} SplitNoSeparator(s: string, c: char)
    requires c !in s
    ensures Split(s, c) == [s]
    decreases |s|
  {
    if s != [] {
      SplitNoSeparator(s[1..], c);
      assert [s[0]] + s[1..] == s;
    }
  }

  /** `xs.join(sep)` for strings. */
  function Join(xs: seq<string>, sep: string): string
    decreases |xs|
  {
    if |xs| == 0 then ""
    else if |xs| == 1 then xs[0]
    else xs[0] + sep + Join(xs[1..], sep)
  }

  /** Text put in front of the first piece comes out in front of the joined text. */
  lemma JoinPrefixFirst(p: string, xs: seq<string>, sep: string)
    requires |xs| >= 1
    ensures Join([p + xs[0]] + xs[1..], sep) == p + Join(xs, sep)
  {
    var ys := [p + xs[0]] + xs[1..];
    if |xs| > 1 {
      assert ys[1..] == xs[1..];
    }
  }

  /** Each of `ys` with `p` in front. */
  function Prefixed(ys: seq<string>, p: string): (r: seq<string>)
    ensures |r| == |ys|
  {
    seq(|ys|, i requires 0 <= i < |ys| => p + ys[i])
  }

  /** Joining with a separator that starts with `c` is joining with `c` alone after
      putting the rest of the separator in front of every piece but the first. */
  lemma {:induction false} JoinLongSeparator(xs: seq<string>, c: char, p: string)
    requires |xs| >= 1
    ensures Join(xs, [c] + p) == Join([xs[0]] + Prefixed(xs[1..], p), [c])
    decreases |xs|
  {
    if |xs| > 1 {
      var rest := xs[1..];
      JoinLongSeparator(rest, c, p);
      assert Prefixed(rest, p) == [p + rest[0]] + Prefixed(rest[1..], p);
      JoinPrefixFirst(p, [rest[0]] + Prefixed(rest[1..], p), [c]);
      assert ([rest[0]] + Prefixed(rest[1..], p))[1..] == Prefixed(rest[1..], p);
      assert ([xs[0]] + Prefixed(rest, p))[1..] == Prefixed(rest, p);
    }
  }

  /** A separator splits the text into the pieces of each side. */
  lemma {:induction false} SplitAppend(a: string, b: string, c: char)
    ensures Split(a + [c] + b, c) == Split(a, c) + Split(b, c)
    decreases |a|
  {
    var s := a + [c] + b;
    if a == [] {
      assert s == [c] + b;
      assert s[1..] == b;
    } else {
      SplitAppend(a[1..], b, c);
      SplitAppendStep(a, b, c);
    }
  }

  lemma SplitAppendStep(a: string, b: string, c: char)
    requires a != []
    requires Split(a[1..] + [c] + b, c) == Split(a[1..], c) + Split(b, c)
    ensures Split(a + [c] + b, c) == Split(a, c) + Split(b, c)
  {
    var s := a + [c] + b;
    assert s[0] == a[0];
    assert s[1..] == a[1..] + [c] + b;
    SplitSameHead(s, a, Split(b, c), c);
  }

  /** Texts with the same first character, whose rests split into `r` apart, split into
      `r` apart. */
  lemma SplitSameHead(s: string, a: string, r: seq<string>, c: char)
    requires s != [] && a != [] && s[0] == a[0]
    requires Split(s[1..], c) == Split(a[1..], c) + r
    ensures Split(s, c) == Split(a, c) + r
  {
    if a[0] == c {
      SplitSeparatorHead(s, a, r, c);
    } else {
      SplitOtherHead(s, a, r, c);
    }
  }

  lemma SplitSeparatorHead(s: string, a: string, r: seq<string>, c: char)
    requires s != [] && a != [] && s[0] == a[0] == c
    requires Split(s[1..], c) == Split(a[1..], c) + r
    ensures Split(s, c) == Split(a, c) + r
  {
    assert Split(s, c) == [""] + Split(s[1..], c);
    assert Split(a, c) == [""] + Split(a[1..], c);
    AppendAssoc([""], Split(a[1..], c), r);
  }

  lemma SplitOtherHead(s: string, a: string, r: seq<string>, c: char)
    requires s != [] && a != [] && s[0] == a[0] != c
    requires Split(s[1..], c) == Split(a[1..], c) + r
    ensures Split(s, c) == Split(a, c) + r
  {
    var left := Split(a[1..], c);
    var head := [[a[0]] + left[0]];
    assert Split(s, c) == head + (left[1..] + r) by {
      var rest := Split(s[1..], c);
      assert rest[0] == left[0];
      assert rest[1..] == left[1..] + r;
    }
    assert Split(a, c) == head + left[1..];
    AppendAssoc(head, left[1..], r);
  }

  /** Splitting undoes joining with the same separator, provided no piece holds it. */
  lemma {:induction false} SplitJoin(xs: seq<string>, c: char)
    requires |xs| >= 1
    requires forall i :: 0 <= i < |xs| ==> c !in xs[i]
    ensures Split(Join(xs, [c]), c) == xs
    decreases |xs|
  {
    SplitNoSeparator(xs[0], c);
    if |xs| > 1 {
      SplitJoin(xs[1..], c);
      SplitAppend(xs[0], Join(xs[1..], [c]), c);
      assert xs == [xs[0]] + xs[1..];
    }
  }

  /** The strings of `xs` written one after another. */
  function Concat(xs: seq<string>): string
    decreases |xs|
  {
    if xs == [] then "" else xs[0] + Concat(xs[1..])
  }

  lemma {:induction false} ConcatSnoc(xs: seq<string>, x: string)
    ensures Concat(xs + [x]) == Concat(xs) + x
    decreases |xs|
  {
    if xs == [] {
      assert [] + [x] == [x];
    } else {
      assert (xs + [x])[1..] == xs[1..] + [x];
      ConcatSnoc(xs[1..], x);
    }
  }

  /** `t` starts `s`. */
  predicate IsPrefix(t: string, s: string) {
    |t| <= |s| && s[..|t|] == t
  }

  /** `s.includes(t)`; every string includes "". */
  predicate Contains(s: string, t: string)
    decreases |s|
  {
    IsPrefix(t, s) || (s != [] && Contains(s[1..], t))
  }

  lemma {:induction false} ContainsAt(s: string, t: string, i: nat)
    requires i + |t| <= |s| && s[i..i + |t|] == t
    ensures Contains(s, t)
    decreases i
  {
    if i > 0 {
      assert s[1..][i - 1..i - 1 + |t|] == s[i..i + |t|];
      ContainsAt(s[1..], t, i - 1);
    }
  }

  lemma {:induction false} ContainsWitness(s: string, t: string) returns (i: nat)
    requires Contains(s, t)
    ensures i + |t| <= |s| && s[i..i + |t|] == t
    decreases |s|
  {
    if IsPrefix(t, s) {
      i := 0;
    } else {
      var j := ContainsWitness(s[1..], t);
      assert s[1..][j..j + |t|] == s[j + 1..j + 1 + |t|];
      i := j + 1;
    }
  }

  /** Inclusion of text is transitive. */
  lemma ContainsTransitive(s: string, t: string, u: string)
    requires Contains(s, t) && Contains(t, u)
    ensures Contains(s, u)
  {
    var i := ContainsWitness(s, t);
    var j := ContainsWitness(t, u);
    forall k | 0 <= k < |u| ensures s[i + j + k] == u[k] {
      assert s[i + (j + k)] == t[j + k];
      assert t[j + k] == u[k];
    }
    assert s[i + j..i + j + |u|] == u;
    ContainsAt(s, u, i + j);
  }

  lemma ContainsItself(s: string)
    ensures Contains(s, s)
  {
    ContainsAt(s, s, 0);
  }

  /** Text includes each of its endings. */
  lemma ContainsSuffix(p: string, t: string)
    ensures Contains(p + t, t)
  {
    var s := p + t;
    assert s[|p|..|p| + |t|] == t;
    ContainsAt(s, t, |p|);
  }

  /** `toLowerCase` on the ASCII letters; other characters are kept. */
  function LowerChar(c: char): char {
    if 'A' <= c <= 'Z' then (c as int + 32) as char else c
  }

  function Lower(s: string): (r: string)
    ensures |r| == |s|
  {
    seq(|s|, i requires 0 <= i < |s| => LowerChar(s[i]))
  }

  /** Lower-casing twice is lower-casing once. */
  lemma LowerIdempotent(s: string)
    ensures Lower(Lower(s)) == Lower(s)
  {
    forall i | 0 <= i < |s| ensures Lower(Lower(s))[i] == Lower(s)[i] {
    }
  }

  /** The characters of `s` for which `drop` is false, in order
      (`s.replace(/x/g, '')` for a character class x). */
  function Remove(s: string, drop: char -> bool): (r: string)
    ensures forall i :: 0 <= i < |r| ==> !drop(r[i])
    ensures |r| <= |s|
    decreases |s|
  {
    if s == [] then []
    else if drop(s[0]) then Remove(s[1..], drop)
    else [s[0]] + Remove(s[1..], drop)
  }

  lemma {:induction false} RemoveAppend(a: string, b: string, drop: char -> bool)
    ensures Remove(a + b, drop) == Remove(a, drop) + Remove(b, drop)
    decreases |a|
  {
    if a == [] {
      assert a + b == b;
    } else {
      assert (a + b)[1..] == a[1..] + b;
      RemoveAppend(a[1..], b, drop);
    }
  }

  lemma {:induction false} RemoveAllDropped(s: string, drop: char -> bool)
    requires forall i :: 0 <= i < |s| ==> drop(s[i])
    ensures Remove(s, drop) == []
    decreases |s|
  {
    if s != [] {
      RemoveAllDropped(s[1..], drop);
    }
  }

  /** Removing from text framed by dropped characters removes the frame. */
  lemma RemoveAround(pre: string, m: string, post: string, drop: char -> bool)
    requires forall i :: 0 <= i < |pre| ==> drop(pre[i])
    requires forall i :: 0 <= i < |post| ==> drop(post[i])
    ensures Remove(pre + m + post, drop) == Remove(m, drop)
  {
    RemoveAppend(pre + m, post, drop);
    RemoveAppend(pre, m, drop);
    RemoveAllDropped(pre, drop);
    RemoveAllDropped(post, drop);
    assert [] + Remove(m, drop) + [] == Remove(m, drop);
  }

  /** Removing one class of characters, then another, removes their union. */
  lemma {:induction false} RemoveTwice(s: string, first: char -> bool, second: char -> bool, both: char -> bool)
    requires forall c :: both(c) == (first(c) || second(c))
    ensures Remove(Remove(s, first), second) == Remove(s, both)
    decreases |s|
  {
    if s != [] {
      RemoveTwice(s[1..], first, second, both);
      if !first(s[0]) {
        assert Remove(s, first) == [s[0]] + Remove(s[1..], first);
        assert ([s[0]] + Remove(s[1..], first))[1..] == Remove(s[1..], first);
      }
    }
  }

  lemma TrimStartSplits(s: string) returns (pre: string)
    ensures s == pre + TrimStart(s)
    ensures forall i :: 0 <= i < |pre| ==> IsSpace(pre[i])
  {
    var t := TrimStart(s);
    var k := |s| - |t|;
    pre := s[..k];
    assert s == pre + t by {
      assert t == s[k..];
    }
    forall i | 0 <= i < k ensures IsSpace(pre[i]) {
      assert pre[i] == s[i];
    }
  }

  lemma TrimEndSplits(t: string) returns (post: string)
    ensures t == TrimEnd(t) + post
    ensures forall i :: 0 <= i < |post| ==> IsSpace(post[i])
  {
    var m := TrimEnd(t);
    post := t[|m|..];
    forall i | 0 <= i < |post| ensures IsSpace(post[i]) {
      assert post[i] == t[|m| + i];
    }
  }

  /** Text is its leading white space, its trimmed text and its trailing white space. */
  lemma TrimSplits(s: string) returns (pre: string, post: string)
    ensures s == pre + Trim(s) + post
    ensures forall i :: 0 <= i < |pre| ==> IsSpace(pre[i])
    ensures forall i :: 0 <= i < |post| ==> IsSpace(post[i])
  {
    var t := TrimStart(s);
    pre := TrimStartSplits(s);
    post := TrimEndSplits(t);
    calc {
      s;
      pre + t;
      pre + (Trim(s) + post);
      { AppendAssoc(pre, Trim(s), post); }
      pre + Trim(s) + post;
    }
  }

  lemma AppendAssoc<T>(a: seq<T>, b: seq<T>, c: seq<T>)
    ensures a + (b + c) == a + b + c
  {
  }

  /** A join of pieces that avoid `c`, with a separator that avoids it, avoids `c`. */
  lemma {:induction false} JoinAvoids(xs: seq<string>, sep: string, c: char)
    requires c !in sep
    requires forall i :: 0 <= i < |xs| ==> c !in xs[i]
    ensures c !in Join(xs, sep)
    decreases |xs|
  {
    if |xs| > 1 {
      JoinAvoids(xs[1..], sep, c);
    }
  }

  /** `s.replace(c, '')` with a one-character string pattern: only the first `c` goes. */
  function RemoveFirst(s: string, c: char): (r: string)
    ensures c in s ==> |r| == |s| - 1
    ensures c !in s ==> r == s
  {
    var k := IndexOf(s, c);
    if k < 0 then s else s[..k] + s[k + 1..]
  }
}
