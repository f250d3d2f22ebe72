/** Python `str` operations the converter relies on, over `seq<char>`:
    `startswith`, `in`, `replace`, the `strip` family, `rfind`, and the
    decimal rendering `str(n)` of a natural number. */
module Strings {
  import opened Wrappers

  /** `s.startswith(p)` */
  predicate StartsWith(s: string, p: string) {
    |p| <= |s| && s[..|p|] == p
  }

  /** `s.endswith(p)` */
  predicate EndsWith(s: string, p: string) {
    |p| <= |s| && s[|s| - |p|..] == p
  }

  /** `p in s`: `p` occurs in `s` as a contiguous substring. */
  predicate Contains(s: string, p: string)
    decreases |s|
  {
    StartsWith(s, p) || (|s| > 0 && Contains(s[1..], p))
  }

  /** `s.replace(pat, rep)`: scan left to right and replace every
      non-overlapping occurrence of `pat`, resuming after each replaced one.
      Every pattern the converter uses is non-empty. */
  function ReplaceAll(s: string, pat: string, rep: string): (r: string)
    requires |pat| > 0
    ensures !Contains(s, pat) ==> r == s
    ensures |pat| == 1 && pat[0] !in rep ==> pat[0] !in r
    ensures |rep| == |pat| ==> |r| == |s|
    decreases |s|
  {
    if |s| < |pat| then s
    else if s[..|pat|] == pat then rep + ReplaceAll(s[|pat|..], pat, rep)
    else [s[0]] + ReplaceAll(s[1..], pat, rep)
  }

  // ---------------------------------------------------------------------
  // Facts about Contains

  lemma ContainsLength(s: string, p: string)
    requires Contains(s, p)
    ensures |p| <= |s|
    decreases |s|
  {
    if !StartsWith(s, p) {
      ContainsLength(s[1..], p);
    }
  }

  /** An occurrence at a known index is an occurrence. */
  lemma {:induction false} ContainsAt(s: string, p: string, i: nat)
    requires i + |p| <= |s| && s[i..i + |p|] == p
    ensures Contains(s, p)
    decreases i
  {
    if i == 0 {
      assert s[..|p|] == p;
    } else {
      assert s[1..][i - 1..i - 1 + |p|] == s[i..i + |p|];
      ContainsAt(s[1..], p, i - 1);
    }
  }

  /** Every character of an occurring pattern is a character of the text. */
  lemma {:induction false} ContainsChar(s: string, p: string, c: char)
    requires Contains(s, p) && c in p
    ensures c in s
    decreases |s|
  {
    if StartsWith(s, p) {
      assert p == s[..|p|];
    } else {
      ContainsChar(s[1..], p, c);
    }
  }

  /** A pattern containing `d` that occurs at the start of `s` brings `d` along. */
  lemma {:induction false} PrefixContains(s: string, p: string, d: string)
    requires StartsWith(s, p) && Contains(p, d)
    ensures Contains(s, d)
    decreases |p|
  {
    if StartsWith(p, d) {
      assert s[..|d|] == p[..|d|];
    } else {
      assert StartsWith(s[1..], p[1..]) by {
        assert s[1..][..|p[1..]|] == s[..|p|][1..];
      }
      PrefixContains(s[1..], p[1..], d);
    }
  }

  /** Substring containment is transitive. */
  lemma {:induction false} ContainsTrans(s: string, p: string, d: string)
    requires Contains(s, p) && Contains(p, d)
    ensures Contains(s, d)
    decreases |s|
  {
    if StartsWith(s, p) {
      PrefixContains(s, p, d);
    } else {
      ContainsTrans(s[1..], p, d);
    }
  }

  /** A two-character pattern occurs in a concatenation exactly when it occurs
      in one part or straddles the seam. */
  lemma {:induction false} ContainsConcatPair(x: string, y: string, q: string)
    requires |q| == 2
    ensures Contains(x + y, q) <==>
      Contains(x, q) || Contains(y, q) ||
      (|x| > 0 && |y| > 0 && x[|x| - 1] == q[0] && y[0] == q[1])
    decreases |x|
  {
    if |x| == 0 {
      assert x + y == y;
      assert !StartsWith(x, q);
    } else {
      var t := x[1..];
      assert (x + y)[1..] == t + y;
      ContainsConcatPair(t, y, q);
      assert StartsWith(x + y, q) <==> (|t + y| > 0 && x[0] == q[0] && (t + y)[0] == q[1]);
      assert StartsWith(x, q) <==> (|t| > 0 && x[0] == q[0] && t[0] == q[1]);
      if |t| > 0 {
        assert x[|x| - 1] == t[|t| - 1];
      }
    }
  }

  // ---------------------------------------------------------------------
  // Facts about ReplaceAll

  /** Replacing a pattern in itself yields the replacement. */
  lemma ReplaceWhole(pat: string, rep: string)
    requires |pat| > 0
    ensures ReplaceAll(pat, pat, rep) == rep
  {
    assert pat[..|pat|] == pat;
    assert pat[|pat|..] == [];
    assert ReplaceAll([], pat, rep) == [];
    assert rep + [] == rep;
  }

  /** The output begins with the input's first character or with the replacement. */
  lemma ReplaceFirstChar(s: string, pat: string, rep: string)
    requires |pat| > 0 && |rep| > 0 && |s| > 0
    ensures var r := ReplaceAll(s, pat, rep);
      |r| > 0 && (r[0] == s[0] || r[0] == rep[0])
  {
  }

  /** No character among the last `n - 1` of `a` is `c`: an occurrence of a
      pattern of length `n` starting with `c` cannot begin in `a` and run past
      its end. */
  predicate TailFree(a: string, c: char, n: nat) {
    forall k :: 0 <= k < |a| && |a| < k + n ==> a[k] != c
  }

  lemma TailFreeDrop(a: string, c: char, n: nat, d: nat)
    requires TailFree(a, c, n) && d <= |a|
    ensures TailFree(a[d..], c, n)
  {
    forall k | 0 <= k < |a[d..]| && |a[d..]| < k + n
      ensures a[d..][k] != c
    {
      assert a[d..][k] == a[k + d];
    }
  }

  /** When no occurrence of `pat` can start in `a` and run past its end,
      replacing in `a + b` replaces in each part independently. */
  lemma {:induction false} ReplaceConcat(a: string, b: string, pat: string, rep: string)
    requires |pat| > 0 && TailFree(a, pat[0], |pat|)
    ensures ReplaceAll(a + b, pat, rep) == ReplaceAll(a, pat, rep) + ReplaceAll(b, pat, rep)
    decreases |a|
  {
    var s := a + b;
    var rb := ReplaceAll(b, pat, rep);
    if |a| == 0 {
      assert s == b;
    } else if |s| < |pat| {
      assert a[0] != pat[0];
    } else if s[..|pat|] == pat {
      assert a[0] == pat[0];
      assert a[..|pat|] == pat;
      assert s[|pat|..] == a[|pat|..] + b;
      TailFreeDrop(a, pat[0], |pat|, |pat|);
      ReplaceConcat(a[|pat|..], b, pat, rep);
      var ra := ReplaceAll(a[|pat|..], pat, rep);
      assert ReplaceAll(s, pat, rep) == rep + (ra + rb);
      assert ReplaceAll(a, pat, rep) == rep + ra;
      assert rep + (ra + rb) == (rep + ra) + rb;
    } else {
      assert s[1..] == a[1..] + b;
      TailFreeDrop(a, pat[0], |pat|, 1);
      ReplaceConcat(a[1..], b, pat, rep);
      var ra := ReplaceAll(a[1..], pat, rep);
      assert ReplaceAll(s, pat, rep) == [s[0]] + (ra + rb);
      if |a| < |pat| {
        assert a[0] != pat[0];
        assert ra == a[1..];
        assert ReplaceAll(a, pat, rep) == a == [a[0]] + ra;
      } else {
        assert a[..|pat|] == s[..|pat|];
        assert ReplaceAll(a, pat, rep) == [a[0]] + ra;
      }
      assert s[0] == a[0];
      assert [s[0]] + (ra + rb) == ([a[0]] + ra) + rb;
    }
  }

  /** Replacing a two-character pattern whose replacement cannot recreate it at
      a seam removes every occurrence, and the same conditions keep out any
      other two-character string that was absent before. */
  lemma {:induction false} ReplaceKeepsOut(s: string, pat: string, rep: string, q: string)
    requires |pat| > 0 && |q| == 2 && |rep| > 0
    requires !Contains(rep, q) && rep[0] != q[1] && rep[|rep| - 1] != q[0]
    requires q == pat || !Contains(s, q)
    ensures !Contains(ReplaceAll(s, pat, rep), q)
    decreases |s|
  {
    var r := ReplaceAll(s, pat, rep);
    if |s| < |pat| {
      if Contains(s, q) {
        ContainsLength(s, q);
      }
    } else if s[..|pat|] == pat {
      var rest := s[|pat|..];
      if q != pat && Contains(rest, q) {
        ContainsSuffix(s, q, |pat|);
      }
      ReplaceKeepsOut(rest, pat, rep, q);
      ContainsConcatPair(rep, ReplaceAll(rest, pat, rep), q);
    } else {
      var rest := s[1..];
      ReplaceKeepsOut(rest, pat, rep, q);
      var rr := ReplaceAll(rest, pat, rep);
      assert r == [s[0]] + rr;
      ContainsConcatPair([s[0]], rr, q);
      if Contains([s[0]], q) {
        ContainsLength([s[0]], q);
      }
      if |rr| > 0 {
        ReplaceFirstChar(rest, pat, rep);
        assert s[..2] == [s[0], s[1]];
      }
    }
  }

  /** Replacing one character by another maps the string character by
      character. */
  lemma {:induction false} ReplaceCharSpec(s: string, c: char, d: char)
    ensures |ReplaceAll(s, [c], [d])| == |s|
    ensures forall i :: 0 <= i < |s| ==>
      ReplaceAll(s, [c], [d])[i] == (if s[i] == c then d else s[i])
    decreases |s|
  {
    if |s| > 0 {
      ReplaceCharSpec(s[1..], c, d);
      var rest := ReplaceAll(s[1..], [c], [d]);
      var r := ReplaceAll(s, [c], [d]);
      if s[..1] == [c] {
        assert r == [d] + rest;
      } else {
        assert r == [s[0]] + rest;
      }
      forall i | 0 <= i < |s|
        ensures r[i] == (if s[i] == c then d else s[i])
      {
        if i > 0 {
          assert r[i] == rest[i - 1];
          assert s[1..][i - 1] == s[i];
        }
      }
    }
  }

  /** An occurrence in a suffix is an occurrence in the whole. */
  lemma {:induction false} ContainsSuffix(s: string, p: string, k: nat)
    requires k <= |s| && Contains(s[k..], p)
    ensures Contains(s, p)
    decreases k
  {
    if k > 0 {
      assert s[1..][k - 1..] == s[k..];
      ContainsSuffix(s[1..], p, k - 1);
    }
  }

  // ---------------------------------------------------------------------
  // Strip family

  /** `str.isspace()` for one character: the characters Python's `str.strip()`
      removes when called without arguments. */
  predicate IsSpace(c: char) {
    c == ' ' || c == '\t' || c == '\n' || c == '\r' ||
    c == '\U{0B}' || c == '\U{0C}' ||
    ('\U{1C}' <= c <= '\U{1F}') ||
    c == '\U{85}' || c == '\U{A0}' || c == '\U{1680}' ||
    ('\U{2000}' <= c <= '\U{200A}') ||
    c == '\U{2028}' || c == '\U{2029}' || c == '\U{202F}' || c == '\U{205F}' ||
    c == '\U{3000}'
  }

  /** `s.lstrip(chars)` with `chars` given as a membership test. */
  function LStrip(s: string, drop: char -> bool): string
    decreases |s|
  {
    if |s| > 0 && drop(s[0]) then LStrip(s[1..], drop) else s
  }

  /** `lstrip` keeps a suffix, removes only dropped characters, and stops at
      the first kept one. */
  lemma {:induction false} LStripSpec(s: string, drop: char -> bool)
    ensures |LStrip(s, drop)| <= |s|
    ensures LStrip(s, drop) == s[|s| - |LStrip(s, drop)|..]
    ensures forall i :: 0 <= i < |s| - |LStrip(s, drop)| ==> drop(s[i])
    ensures |LStrip(s, drop)| == 0 || !drop(LStrip(s, drop)[0])
    decreases |s|
  {
    if |s| > 0 && drop(s[0]) {
      LStripSpec(s[1..], drop);
      var r := LStrip(s, drop);
      assert forall i :: 1 <= i < |s| - |r| ==> s[i] == s[1..][i - 1];
    }
  }

  /** `s.rstrip(chars)` with `chars` given as a membership test. */
  function RStrip(s: string, drop: char -> bool): string
    decreases |s|
  {
    if |s| > 0 && drop(s[|s| - 1]) then RStrip(s[..|s| - 1], drop) else s
  }

  /** `rstrip` keeps a prefix, removes only dropped characters, and stops at
      the last kept one. */
  lemma {:induction false} RStripSpec(s: string, drop: char -> bool)
    ensures |RStrip(s, drop)| <= |s|
    ensures RStrip(s, drop) == s[..|RStrip(s, drop)|]
    ensures forall i :: |RStrip(s, drop)| <= i < |s| ==> drop(s[i])
    ensures |RStrip(s, drop)| == 0 || !drop(RStrip(s, drop)[|RStrip(s, drop)| - 1])
    decreases |s|
  {
    if |s| > 0 && drop(s[|s| - 1]) {
      RStripSpec(s[..|s| - 1], drop);
    }
  }

  /** `s.strip(chars)` */
  function StripBy(s: string, drop: char -> bool): string {
    LStrip(RStrip(s, drop), drop)
  }

  /** `r` is `s[i..i + |r|]` and every character cut off either side is dropped. */
  ghost predicate StrippedAt(s: string, r: string, i: int, drop: char -> bool) {
    && 0 <= i && i + |r| <= |s|
    && r == s[i..i + |r|]
    && (forall k :: 0 <= k < i ==> drop(s[k]))
    && (forall k :: i + |r| <= k < |s| ==> drop(s[k]))
  }

  /** Stripping keeps one slice of the input, cuts off only dropped
      characters, and leaves neither end on a dropped character. */
  lemma StripBySpec(s: string, drop: char -> bool)
    ensures StrippedAt(s, StripBy(s, drop), |RStrip(s, drop)| - |StripBy(s, drop)|, drop)
    ensures |StripBy(s, drop)| == 0 ||
      (!drop(StripBy(s, drop)[0]) && !drop(StripBy(s, drop)[|StripBy(s, drop)| - 1]))
  {
    var right := RStrip(s, drop);
    var r := LStrip(right, drop);
    RStripSpec(s, drop);
    LStripSpec(right, drop);
    StripPieces(s, right, r, drop);
    if |r| > 0 {
      assert r[|r| - 1] == right[|right| - 1];
    }
  }

  lemma StripPieces(s: string, right: string, r: string, drop: char -> bool)
    requires |right| <= |s| && right == s[..|right|]
    requires forall i :: |right| <= i < |s| ==> drop(s[i])
    requires |r| <= |right| && r == right[|right| - |r|..]
    requires forall i :: 0 <= i < |right| - |r| ==> drop(right[i])
    ensures StrippedAt(s, r, |right| - |r|, drop)
  {
    var i := |right| - |r|;
    forall k | 0 <= k < i
      ensures drop(s[k])
    {
      assert s[k] == right[k];
    }
  }

  /** `s.strip()` */
  function Strip(s: string): string {
    StripBy(s, IsSpace)
  }

  // ---------------------------------------------------------------------
  // Search and shape

  /** `s.rfind(c)`: the last index holding `c`, or -1. */
  function RFind(s: string, c: char): (r: int)
    ensures -1 <= r < |s|
    ensures r >= 0 ==> s[r] == c
    ensures forall j :: r < j < |s| ==> s[j] != c
    decreases |s|
  {
    if |s| == 0 then -1
    else if s[|s| - 1] == c then |s| - 1
    else RFind(s[..|s| - 1], c)
  }

  /** `s.find(c)`: the first index holding `c`, or -1. */
  function Find(s: string, c: char): (r: int)
    ensures -1 <= r < |s|
    ensures r >= 0 ==> s[r] == c
    ensures forall j :: 0 <= j < |s| && (r < 0 || j < r) ==> s[j] != c
    decreases |s|
  {
    if |s| == 0 then -1
    else if s[0] == c then 0
    else var k := Find(s[1..], c); if k < 0 then -1 else k + 1
  }

  /** `p` sits in `s` at index `i`. */
  predicate OccursAt(s: string, p: string, i: int) {
    0 <= i && i + |p| <= |s| && s[i..i + |p|] == p
  }

  /** The second part of a concatenation occurs right after the first. */
  lemma OccursEnd(a: string, b: string)
    ensures OccursAt(a + b, b, |a|)
  {
    assert (a + b)[|a|..|a| + |b|] == b;
  }

  /** An occurrence stays where it is when text is appended. */
  lemma OccursExtend(s: string, p: string, i: int, t: string)
    requires OccursAt(s, p, i)
    ensures OccursAt(s + t, p, i)
  {
    assert (s + t)[i..i + |p|] == s[i..i + |p|];
  }

  /** An occurrence moves right by the length of prepended text. */
  lemma OccursShift(t: string, s: string, p: string, i: int)
    requires OccursAt(s, p, i)
    ensures OccursAt(t + s, p, |t| + i)
  {
    assert (t + s)[|t| + i..|t| + i + |p|] == s[i..i + |p|];
  }

  /** The middle part of a concatenation occurs in it, right after the first. */
  lemma ContainsMiddle(a: string, b: string, c: string)
    ensures OccursAt(a + b + c, b, |a|)
    ensures Contains(a + b + c, b)
  {
    assert (a + b + c)[|a|..|a| + |b|] == b;
    ContainsAt(a + b + c, b, |a|);
  }

  lemma FindIs(s: string, c: char, k: nat)
    requires k < |s| && s[k] == c && forall j :: 0 <= j < k ==> s[j] != c
    ensures Find(s, c) == k
  {
  }

  /** Reads back the two fields of a text shaped `head + x + mid + y + tail`,
      taking `x` to end where the first character of `mid` first appears;
      `None` when the text has no such shape or `mid` is empty. */
  function SplitFields(s: string, head: string, mid: string, tail: string): Option<(string, string)>
  {
    if |mid| > 0 && |head| + |tail| <= |s| && StartsWith(s, head) && EndsWith(s, tail) then
      var body := s[|head|..|s| - |tail|];
      var k := Find(body, mid[0]);
      if k >= 0 && StartsWith(body[k..], mid) then
        Some((body[..k], body[k + |mid|..]))
      else
        None
    else
      None
  }

  /** Splitting undoes the assembly whenever the first field does not hold
      the character that opens the middle part; the second field may hold
      anything. */
  lemma SplitFieldsRoundTrip(head: string, x: string, mid: string, y: string, tail: string)
    requires |mid| > 0 && mid[0] !in x
    ensures SplitFields(head + x + mid + y + tail, head, mid, tail) == Some((x, y))
  {
    var body := x + mid + y;
    assert head + x + mid + y + tail == head + body + tail;
    Framed(head, body, tail);
    FieldsOfBody(x, mid, y);
  }

  /** The text between a known head and tail. */
  lemma Framed(head: string, body: string, tail: string)
    ensures var s := head + body + tail;
      && |head| + |tail| <= |s| && StartsWith(s, head) && EndsWith(s, tail)
      && s[|head|..|s| - |tail|] == body
  {
    var s := head + body + tail;
    assert s[..|head|] == head;
    assert s[|s| - |tail|..] == tail;
    assert s[|head|..|s| - |tail|] == body;
  }

  /** The first field ends where the middle part's first character first
      appears, when the first field does not hold that character. */
  lemma FieldsOfBody(x: string, mid: string, y: string)
    requires |mid| > 0 && mid[0] !in x
    ensures var body := x + mid + y;
      && Find(body, mid[0]) == |x| && StartsWith(body[|x|..], mid)
      && body[..|x|] == x && body[|x| + |mid|..] == y
  {
    var body := x + mid + y;
    var k := |x|;
    assert body[k] == mid[0];
    assert forall j :: 0 <= j < k ==> body[j] == x[j];
    FindIs(body, mid[0], k);
    assert body[k..] == mid + y;
    assert body[..k] == x;
    assert body[k + |mid|..] == y;
  }

  /** Every character of `s` is `c` (true of the empty string). */
  predicate AllChar(s: string, c: char) {
    forall i :: 0 <= i < |s| ==> s[i] == c
  }

  /** `''.join(parts)` */
  function Concat(parts: seq<string>): string
    decreases |parts|
  {
    if |parts| == 0 then "" else Concat(parts[..|parts| - 1]) + parts[|parts| - 1]
  }

  lemma {:induction false} ConcatAppend(a: seq<string>, b: seq<string>)
    ensures Concat(a + b) == Concat(a) + Concat(b)
    decreases |b|
  {
    if |b| == 0 {
      assert a + b == a;
    } else {
      var b' := b[..|b| - 1];
      assert (a + b)[..|a + b| - 1] == a + b';
      ConcatAppend(a, b');
    }
  }

  /** `s * n`: `n` copies of `s`. */
  function Repeat(s: string, n: nat): string
    decreases n
  {
    if n == 0 then "" else Repeat(s, n - 1) + s
  }

  /** `s * n` is `n` copies of `s` side by side and nothing else. */
  lemma {:induction false} RepeatCopies(s: string, n: nat)
    ensures |Repeat(s, n)| == n * |s|
    ensures forall i :: 0 <= i < n ==> OccursAt(Repeat(s, n), s, i * |s|)
    decreases n
  {
    if n > 0 {
      RepeatCopies(s, n - 1);
      var g := Repeat(s, n - 1);
      var w := |s|;
      assert |g| == (n - 1) * w;
      assert n * w == (n - 1) * w + w;
      forall i | 0 <= i < n
        ensures OccursAt(Repeat(s, n), s, i * w)
      {
        if i < n - 1 {
          assert OccursAt(g, s, i * w);
          assert i * w + w <= (n - 1) * w by {
            assert (n - 1) * w - (i * w + w) == (n - 2 - i) * w;
          }
          assert (g + s)[i * w..i * w + w] == g[i * w..i * w + w];
        } else {
          assert i * w == |g|;
          assert (g + s)[i * w..i * w + w] == s;
        }
      }
    }
  }

  /** `''.join(f(x) for x in xs)` */
  function ConcatMap<T>(xs: seq<T>, f: T -> string): string
    decreases |xs|
  {
    if |xs| == 0 then "" else ConcatMap(xs[..|xs| - 1], f) + f(xs[|xs| - 1])
  }

  lemma {:induction false} ConcatMapAppend<T>(xs: seq<T>, ys: seq<T>, f: T -> string)
    ensures ConcatMap(xs + ys, f) == ConcatMap(xs, f) + ConcatMap(ys, f)
    decreases |ys|
  {
    if |ys| == 0 {
      assert xs + ys == xs;
    } else {
      var ys' := ys[..|ys| - 1];
      assert (xs + ys)[..|xs + ys| - 1] == xs + ys';
      assert (xs + ys)[|xs + ys| - 1] == ys[|ys| - 1];
      ConcatMapAppend(xs, ys', f);
    }
  }

  /** Element `i`'s piece sits between the pieces of the elements before it
      and those after it. */
  lemma ConcatMapAt<T>(xs: seq<T>, i: nat, f: T -> string)
    requires i < |xs|
    ensures ConcatMap(xs, f) == ConcatMap(xs[..i], f) + f(xs[i]) + ConcatMap(xs[i + 1..], f)
  {
    var front, rest := xs[..i + 1], xs[i + 1..];
    assert front + rest == xs;
    ConcatMapAppend(front, rest, f);
    assert front[..|front| - 1] == xs[..i];
    assert ConcatMap(front, f) == ConcatMap(xs[..i], f) + f(xs[i]);
  }

  // ---------------------------------------------------------------------
  // Decimal rendering

  /** `str(n)` for a natural number. */
  function NatToString(n: nat): (r: string)
    ensures |r| > 0 && forall i :: 0 <= i < |r| ==> '0' <= r[i] <= '9'
    ensures DecimalValue(r) == n
    decreases n
  {
    if n < 10 then [DigitChar(n)]
    else NatToString(n / 10) + [DigitChar(n % 10)]
  }

  function DigitChar(d: nat): (c: char)
    requires d < 10
    ensures '0' <= c <= '9' && c as int - '0' as int == d
  {
    ('0' as int + d) as char
  }

  /** The number a string of decimal digits denotes. */
  function DecimalValue(s: string): nat
    requires forall i :: 0 <= i < |s| ==> '0' <= s[i] <= '9'
    decreases |s|
  {
    if |s| == 0 then 0
    else 10 * DecimalValue(s[..|s| - 1]) + (s[|s| - 1] as int - '0' as int)
  }
}
