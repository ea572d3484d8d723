/** The Python `str` operations the scripts rely on, with Python's own
    semantics: `startswith`/`endswith`, `strip`, negative slicing `s[-k:]`,
    `sep.join`, `split` on one character, and `replace` (every occurrence,
    scanning left to right). */
module PyStr {

  /** `s.startswith(prefix)` */
  predicate StartsWith(s: string, prefix: string) {
    |prefix| <= |s| && s[..|prefix|] == prefix
  }

  /** `s.endswith(suffix)` */
  predicate EndsWith(s: string, suffix: string) {
    |suffix| <= |s| && s[|s| - |suffix|..] == suffix
  }

  /** `w` occurs in `s` starting at index `i`. */
  predicate OccursAt(s: string, w: string, i: int) {
    0 <= i && i + |w| <= |s| && s[i..i + |w|] == w
  }

  /** Number of occurrences of the character `c` in `s`. */
  function Count(s: string, c: char): (n: nat)
    ensures n == 0 <==> c !in s
    ensures n <= |s|
  {
    if s == [] then 0 else (if s[0] == c then 1 else 0) + Count(s[1..], c)
  }

  // ---------------------------------------------------------------------
  // Whitespace and strip
  // ---------------------------------------------------------------------

  /** The characters for which Python's `str.isspace()` holds; `str.strip()`
      without arguments removes exactly these: the controls U+0009..U+000D and
      U+001C..U+001F, the space, U+0085, U+00A0, U+1680, U+2000..U+200A,
      U+2028, U+2029, U+202F, U+205F and U+3000. */
  predicate IsSpace(c: char) {
    || '\t' <= c <= '\r'
    || '\U{1C}' <= c <= ' '
    || c == '\U{85}' || c == '\U{A0}' || c == '\U{1680}'
    || '\U{2000}' <= c <= '\U{200A}'
    || c == '\U{2028}' || c == '\U{2029}' || c == '\U{202F}' || c == '\U{205F}' || c == '\U{3000}'
  }

  /** Every character of `s` is whitespace (vacuously so for ""). */
  predicate AllSpace(s: string) {
    forall i :: 0 <= i < |s| ==> IsSpace(s[i])
  }

  /** `s.lstrip()`: the longest suffix of `s` not starting with whitespace. */
  function StripLeading(s: string): (r: string)
    ensures EndsWith(s, r)
    ensures AllSpace(s[..|s| - |r|])
    ensures r == [] || !IsSpace(r[0])
  {
    if |s| > 0 && IsSpace(s[0]) then
      var r := StripLeading(s[1..]);
      SpaceBeforeStripped(s, r);
      r
    else s
  }

  /** A leading space in front of a stripped tail keeps the tail a suffix
      with only whitespace before it. */
  lemma SpaceBeforeStripped(s: string, r: string)
    requires |s| > 0 && IsSpace(s[0])
    requires EndsWith(s[1..], r) && AllSpace(s[1..][..|s| - 1 - |r|])
    ensures EndsWith(s, r) && AllSpace(s[..|s| - |r|])
  {
    var cut := |s| - |r|;
    assert s[cut..] == s[1..][cut - 1..];
    assert s[..cut][0] == s[0];
    forall i | 1 <= i < cut
      ensures IsSpace(s[..cut][i])
    {
      assert s[..cut][i] == s[1..][..cut - 1][i - 1];
    }
  }

  /** `s.rstrip()`: the longest prefix of `s` not ending in whitespace. */
  function StripTrailing(s: string): (r: string)
    ensures StartsWith(s, r)
    ensures AllSpace(s[|r|..])
    ensures r == [] || !IsSpace(r[|r| - 1])
  {
    if |s| > 0 && IsSpace(s[|s| - 1]) then
      var r := StripTrailing(s[..|s| - 1]);
      assert s[..|r|] == s[..|s| - 1][..|r|];
      assert AllSpace(s[|r|..]) by {
        forall i | 0 <= i < |s| - |r| - 1
          ensures IsSpace(s[|r|..][i])
        {
          assert s[|r|..][i] == s[..|s| - 1][|r|..][i];
        }
      }
      r
    else s
  }

  /** `s.strip()`: the string left after removing leading and trailing
      whitespace. It is empty exactly when `s` is all whitespace; otherwise
      it begins and ends with a non-space character and stands in `s`
      between a whitespace prefix and a whitespace suffix. */
  function Strip(s: string): (r: string)
    ensures r == [] <==> AllSpace(s)
    ensures r == [] || (!IsSpace(r[0]) && !IsSpace(r[|r| - 1]))
    ensures exists k :: OccursAt(s, r, k) && AllSpace(s[..k]) && AllSpace(s[k + |r|..])
  {
    var l := StripLeading(s);
    var r := StripTrailing(l);
    StrippedEmptyIffAllSpace(s, l, r);
    StrippedLiesBetweenSpace(s, l, r);
    r
  }

  /** What `lstrip` and then `rstrip` promise about their results `l` and
      `r`, stated without the functions themselves. */
  predicate StrippedInTurn(s: string, l: string, r: string) {
    && EndsWith(s, l) && AllSpace(s[..|s| - |l|]) && (l == [] || !IsSpace(l[0]))
    && StartsWith(l, r) && AllSpace(l[|r|..]) && (r == [] || !IsSpace(r[|r| - 1]))
  }

  /** Stripping both ends leaves nothing exactly when `s` is all whitespace. */
  lemma StrippedEmptyIffAllSpace(s: string, l: string, r: string)
    requires StrippedInTurn(s, l, r)
    ensures r == [] <==> AllSpace(s)
  {
    var k := |s| - |l|;
    assert s[k..] == l;
    if r == [] {
      assert l[|r|..] == l;
      assert l == [];
      assert s[..k] == s;
    }
  }

  /** The stripped text begins and ends with a non-space character and sits
      in `s` between a whitespace prefix and a whitespace suffix. */
  lemma StrippedLiesBetweenSpace(s: string, l: string, r: string)
    requires StrippedInTurn(s, l, r)
    ensures r == [] || (!IsSpace(r[0]) && !IsSpace(r[|r| - 1]))
    ensures exists k :: OccursAt(s, r, k) && AllSpace(s[..k]) && AllSpace(s[k + |r|..])
  {
    var k := |s| - |l|;
    assert s[k..] == l;
    assert s[k..k + |r|] == l[..|r|];
    assert s[k + |r|..] == l[|r|..];
    assert OccursAt(s, r, k) && AllSpace(s[..k]) && AllSpace(s[k + |r|..]);
  }

  // ---------------------------------------------------------------------
  // Negative slicing
  // ---------------------------------------------------------------------

  /** `s[-k:]`. For k > 0 these are the last min(k, |s|) characters; since
      `-0 == 0`, `s[-0:]` is the whole of `s`. */
  function SliceFromEnd(s: string, k: nat): (r: string)
    ensures EndsWith(s, r)
    ensures k > 0 ==> |r| == if |s| < k then |s| else k
    ensures k == 0 ==> r == s
  {
    if k == 0 || |s| <= k then s else s[|s| - k..]
  }

  // ---------------------------------------------------------------------
  // join and split
  // ---------------------------------------------------------------------

  /** Sum of the lengths of `parts`. */
  function TotalLength(parts: seq<string>): nat {
    if parts == [] then 0 else |parts[0]| + TotalLength(parts[1..])
  }

  /** Number of occurrences of `c` over all of `parts`. */
  function TotalCount(parts: seq<string>, c: char): nat {
    if parts == [] then 0 else Count(parts[0], c) + TotalCount(parts[1..], c)
  }

  /** `sep.join(parts)`: one copy of `sep` between each neighbouring pair. */
  function Join(sep: string, parts: seq<string>): (r: string)
    ensures |parts| == 0 ==> r == []
    ensures |parts| == 1 ==> r == parts[0]
  {
    if |parts| == 0 then ""
    else if |parts| == 1 then parts[0]
    else parts[0] + sep + Join(sep, parts[1..])
  }

  /** A join begins with its first part and ends with its last. */
  lemma {:induction false} JoinEnds(sep: string, parts: seq<string>)
    requires |parts| > 0
    ensures StartsWith(Join(sep, parts), parts[0])
    ensures EndsWith(Join(sep, parts), parts[|parts| - 1])
  {
    if |parts| > 1 {
      var rest := Join(sep, parts[1..]);
      var r := parts[0] + sep + rest;
      JoinEnds(sep, parts[1..]);
      assert r[..|parts[0]|] == parts[0];
      assert r[|r| - |rest|..] == rest;
      EndsWithTransitive(r, rest, parts[|parts| - 1]);
    }
  }

  /** Where part `i` of a one-character join starts: after the parts
      before it and one separator behind each of them. */
  function PartStart(parts: seq<string>, i: nat): nat
    requires i <= |parts|
  {
    TotalLength(parts[..i]) + i
  }

  /** Part `i` stands in `r` at `PartStart(parts, i)`, and a `c` follows it
      unless it is the last part. */
  predicate LaidOutAt(r: string, c: char, parts: seq<string>, i: nat)
    requires i < |parts|
  {
    var k := PartStart(parts, i);
    && OccursAt(r, parts[i], k)
    && (i + 1 < |parts| ==> k + |parts[i]| < |r| && r[k + |parts[i]|] == c)
  }

  /** Every part of `parts` is laid out in `r` as a join with `c` lays it. */
  predicate PartsLaidOut(r: string, c: char, parts: seq<string>) {
    forall i :: 0 <= i < |parts| ==> LaidOutAt(r, c, parts, i)
  }

  /** A join with a one-character separator holds each part at its place,
      with the separator right behind every part but the last. */
  lemma {:induction false} JoinLaysOutParts(c: char, parts: seq<string>)
    ensures PartsLaidOut(Join([c], parts), c, parts)
  {
    if |parts| == 1 {
      assert parts[..0] == [];
      assert parts[0][0..|parts[0]|] == parts[0];
      assert LaidOutAt(parts[0], c, parts, 0);
    } else if |parts| > 1 {
      var rest := Join([c], parts[1..]);
      var r := parts[0] + [c] + rest;
      JoinLaysOutParts(c, parts[1..]);
      forall i | 0 <= i < |parts|
        ensures LaidOutAt(r, c, parts, i)
      {
        if i == 0 {
          assert parts[..0] == [];
          assert r[0..|parts[0]|] == parts[0];
          assert r[|parts[0]|] == c;
        } else {
          assert LaidOutAt(rest, c, parts[1..], i - 1);
          LaidOutAfterHead(parts, c, rest, i);
        }
      }
    }
  }

  /** The layout and the length of a join determine it: a string as long as
      the join of `parts`, holding every part at its place with `c` behind
      every part but the last, is that join. */
  lemma {:induction false} LaidOutIsJoin(r: string, c: char, parts: seq<string>)
    requires |parts| >= 1 && |r| == TotalLength(parts) + |parts| - 1
    requires PartsLaidOut(r, c, parts)
    ensures r == Join([c], parts)
  {
    assert parts[..0] == [];
    assert LaidOutAt(r, c, parts, 0);
    var h := |parts[0]|;
    if |parts| == 1 {
      assert r == r[0..h];
    } else {
      var rest := r[h + 1..];
      forall i | 0 <= i < |parts| - 1
        ensures LaidOutAt(rest, c, parts[1..], i)
      {
        assert LaidOutAt(r, c, parts, i + 1);
        LaidOutBehindHead(parts, c, r, i + 1);
      }
      LaidOutIsJoin(rest, c, parts[1..]);
      assert r == r[..h] + [r[h]] + rest;
    }
  }

  /** A part laid out in a join behind the first part and a separator is
      laid out in what follows them. */
  lemma LaidOutBehindHead(parts: seq<string>, c: char, r: string, i: nat)
    requires 0 < i < |parts| && |parts[0]| < |r|
    requires LaidOutAt(r, c, parts, i)
    ensures LaidOutAt(r[|parts[0]| + 1..], c, parts[1..], i - 1)
  {
    var d := |parts[0]| + 1;
    var k := PartStart(parts[1..], i - 1);
    var w := parts[i];
    PartStartStep(parts, i);
    assert w == parts[1..][i - 1];
    assert r[d..][k..k + |w|] == r[d + k..d + k + |w|];
    if i + 1 < |parts| {
      assert r[d..][k + |w|] == r[d + k + |w|];
    }
  }

  /** Part `i` of `parts[1..]` moves `|parts[0]| + 1` places on once the
      first part and a separator stand in front. */
  lemma PartStartStep(parts: seq<string>, i: nat)
    requires 0 < i <= |parts|
    ensures PartStart(parts, i) == |parts[0]| + 1 + PartStart(parts[1..], i - 1)
  {
    assert parts[..i][0] == parts[0];
    assert parts[..i][1..] == parts[1..][..i - 1];
  }

  /** A part laid out in the join of the later parts is laid out in the
      whole join, behind the first part and a separator. */
  lemma LaidOutAfterHead(parts: seq<string>, c: char, rest: string, i: nat)
    requires 0 < i < |parts|
    requires LaidOutAt(rest, c, parts[1..], i - 1)
    ensures LaidOutAt(parts[0] + [c] + rest, c, parts, i)
  {
    var h := parts[0] + [c];
    var k := PartStart(parts[1..], i - 1);
    var w := parts[i];
    PartStartStep(parts, i);
    assert w == parts[1..][i - 1];
    assert (h + rest)[|h| + k..|h| + k + |w|] == rest[k..k + |w|];
    if i + 1 < |parts| {
      assert (h + rest)[|h| + k + |w|] == rest[k + |w|];
    }
  }

  /** A suffix of a suffix is a suffix. */
  lemma EndsWithTransitive(s: string, t: string, u: string)
    requires EndsWith(s, t) && EndsWith(t, u)
    ensures EndsWith(s, u)
  {
    assert s[|s| - |u|..] == t[|t| - |u|..];
  }

  /** A join with a one-character separator is as long as its parts
      together plus one character between each neighbouring pair. */
  lemma {:induction false} JoinLength(c: char, parts: seq<string>)
    requires |parts| >= 1
    ensures |Join([c], parts)| == TotalLength(parts) + |parts| - 1
  {
    if |parts| > 1 {
      JoinLength(c, parts[1..]);
    }
  }

  lemma CountConcat(a: string, b: string, c: char)
    ensures Count(a + b, c) == Count(a, c) + Count(b, c)
  {
    if a == [] {
      assert a + b == b;
    } else {
      assert (a + b)[0] == a[0];
      assert (a + b)[1..] == a[1..] + b;
      CountConcat(a[1..], b, c);
    }
  }

  /** Joining n >= 1 parts with a one-character separator adds exactly n - 1
      occurrences of that character to those already in the parts. */
  lemma {:induction false} JoinAddsSeparators(parts: seq<string>, c: char)
    requires |parts| >= 1
    ensures Count(Join([c], parts), c) == TotalCount(parts, c) + |parts| - 1
  {
    if |parts| > 1 {
      JoinAddsSeparators(parts[1..], c);
      CountConcat(parts[0] + [c], Join([c], parts[1..]), c);
      CountConcat(parts[0], [c], c);
      assert Count([c], c) == 1;
    } else {
      assert Count(parts[0], c) + Count([], c) == TotalCount(parts, c);
    }
  }

  /** `s.split(c)` for a single-character separator: the pieces between
      separators, always at least one (`"".split(c) == [""]`). */
  function Split(s: string, c: char): (parts: seq<string>)
    ensures |parts| == Count(s, c) + 1
    ensures forall i :: 0 <= i < |parts| ==> c !in parts[i]
    ensures c !in s ==> parts == [s]
  {
    if |s| == 0 then [""]
    else
      var rest := Split(s[1..], c);
      if s[0] == c then [""] + rest
      else
        assert c !in s ==> rest == [s[1..]] && [s[0]] + s[1..] == s;
        [[s[0]] + rest[0]] + rest[1..]
  }

  /** Joining a part in front of a non-empty list puts one separator
      between them. */
  lemma JoinCons(sep: string, p: string, rest: seq<string>)
    requires |rest| > 0
    ensures Join(sep, [p] + rest) == p + sep + Join(sep, rest)
  {
    assert ([p] + rest)[1..] == rest;
  }

  /** Splitting then joining with the same separator gives back the string. */
  lemma {:induction false} JoinSplit(s: string, c: char)
    ensures Join([c], Split(s, c)) == s
  {
    if |s| > 0 {
      JoinSplit(s[1..], c);
      if s[0] == c {
        assert Split(s, c) == [""] + Split(s[1..], c);
        JoinCons([c], "", Split(s[1..], c));
        assert s == "" + [c] + s[1..];
      } else {
        JoinSplitOther(s, c);
      }
    }
  }

  /** Gluing a character onto the first part of a join puts it in front of
      the joined string. */
  lemma JoinGlue(x: char, rest: seq<string>, sep: string)
    requires |rest| > 0
    ensures Join(sep, [[x] + rest[0]] + rest[1..]) == [x] + Join(sep, rest)
  {
    var head := [x] + rest[0];
    if |rest| == 1 {
      assert [head] + rest[1..] == [head];
    } else {
      JoinCons(sep, head, rest[1..]);
      JoinCons(sep, rest[0], rest[1..]);
      assert [rest[0]] + rest[1..] == rest;
    }
  }

  /** The step of `JoinSplit` for a string starting with another character,
      which is glued onto the first piece of the rest. */
  lemma JoinSplitOther(s: string, c: char)
    requires |s| > 0 && s[0] != c
    requires Join([c], Split(s[1..], c)) == s[1..]
    ensures Join([c], Split(s, c)) == s
  {
    var rest := Split(s[1..], c);
    assert Split(s, c) == [[s[0]] + rest[0]] + rest[1..];
    JoinGlue(s[0], rest, [c]);
    assert s == [s[0]] + s[1..];
  }

  /** A separator-free piece followed by the separator splits off as one part. */
  lemma {:induction false} SplitAfterPiece(p: string, c: char, t: string)
    requires c !in p
    ensures Split(p + [c] + t, c) == [p] + Split(t, c)
  {
    var s := p + [c] + t;
    if p == [] {
      assert s[1..] == t;
    } else {
      assert s[1..] == p[1..] + [c] + t;
      SplitAfterPiece(p[1..], c, t);
      var rest := Split(s[1..], c);
      assert rest[0] == p[1..] && rest[1..] == Split(t, c);
      assert s[0] == p[0] && s[0] != c;
      assert Split(s, c) == [[s[0]] + rest[0]] + rest[1..];
      assert [p[0]] + p[1..] == p;
    }
  }

  /** Joining separator-free parts and splitting again gives the parts back. */
  lemma {:induction false} SplitJoin(parts: seq<string>, c: char)
    requires |parts| > 0
    requires forall i :: 0 <= i < |parts| ==> c !in parts[i]
    ensures Split(Join([c], parts), c) == parts
  {
    if |parts| > 1 {
      SplitJoin(parts[1..], c);
      SplitAfterPiece(parts[0], c, Join([c], parts[1..]));
    }
  }

  /** `SplitJoin` as an implication, for callers that cannot establish its
      preconditions in every case. */
  lemma SplitJoinWhenFree(parts: seq<string>, c: char)
    ensures |parts| > 0 && (forall i :: 0 <= i < |parts| ==> c !in parts[i]) ==>
      Split(Join([c], parts), c) == parts
  {
    if |parts| > 0 && forall i :: 0 <= i < |parts| ==> c !in parts[i] {
      SplitJoin(parts, c);
    }
  }

  /** `s.split(c)[-1]`: the text after the last `c`, which is the longest
      suffix of `s` free of `c` — it ends `s`, contains no `c`, and is either
      all of `s` or preceded by a `c`. */
  function LastPiece(s: string, c: char): (r: string)
    ensures c !in r
    ensures EndsWith(s, r)
    ensures |r| == |s| || s[|s| - |r| - 1] == c
  {
    var parts := Split(s, c);
    SplitEndsInMaximalTail(s, c);
    parts[|parts| - 1]
  }

  /** `t` ends `s` and is either all of it or preceded by a `c`. */
  predicate MaximalTail(s: string, t: string, c: char) {
    EndsWith(s, t) && (|t| == |s| || s[|s| - |t| - 1] == c)
  }

  /** The last piece of a split is the longest separator-free suffix. */
  lemma {:induction false} SplitEndsInMaximalTail(s: string, c: char)
    ensures var parts := Split(s, c); MaximalTail(s, parts[|parts| - 1], c)
  {
    if |s| > 0 {
      var rest := Split(s[1..], c);
      SplitEndsInMaximalTail(s[1..], c);
      if s[0] == c {
        LastAfterSeparator(s, c);
      } else if |rest| == 1 {
        assert c !in s[1..];
        assert Split(s, c) == [s];
      } else {
        LastAfterOther(s, c);
      }
    }
  }

  /** The step of `SplitEndsInMaximalTail` for a leading separator. */
  lemma LastAfterSeparator(s: string, c: char)
    requires |s| > 0 && s[0] == c
    requires var rest := Split(s[1..], c); MaximalTail(s[1..], rest[|rest| - 1], c)
    ensures var parts := Split(s, c); MaximalTail(s, parts[|parts| - 1], c)
  {
    var rest := Split(s[1..], c);
    var t := rest[|rest| - 1];
    assert Split(s, c) == [""] + rest;
    TailAfterFirst(s, t, c);
  }

  /** The step of `SplitEndsInMaximalTail` for a leading non-separator
      when a separator follows later. */
  lemma LastAfterOther(s: string, c: char)
    requires |s| > 0 && s[0] != c && |Split(s[1..], c)| > 1
    requires var rest := Split(s[1..], c); MaximalTail(s[1..], rest[|rest| - 1], c)
    ensures var parts := Split(s, c); MaximalTail(s, parts[|parts| - 1], c)
  {
    var rest := Split(s[1..], c);
    var t := rest[|rest| - 1];
    var parts := Split(s, c);
    assert parts == [[s[0]] + rest[0]] + rest[1..];
    assert parts[|parts| - 1] == t;
    assert Count(s[1..], c) > 0;
    FreeTailIsProper(s[1..], t, c);
    TailAfterFirst(s, t, c);
  }

  /** A suffix free of `c` is shorter than a string containing `c`. */
  lemma FreeTailIsProper(u: string, t: string, c: char)
    requires c in u && c !in t && EndsWith(u, t)
    ensures |t| < |u|
  {
    var j :| 0 <= j < |u| && u[j] == c;
    assert u[|u| - |t|..] == t;
    forall k | |u| - |t| <= k < |u|
      ensures u[k] != c
    {
      assert u[k] == t[k - (|u| - |t|)];
    }
  }

  /** A maximal separator-free tail of `s[1..]` that is not all of it, or
      that follows a leading separator, is one of `s` too. */
  lemma TailAfterFirst(s: string, t: string, c: char)
    requires |s| > 0 && EndsWith(s[1..], t)
    requires |t| == |s| - 1 ==> s[0] == c
    requires |t| < |s| - 1 ==> s[1..][|s| - 1 - |t| - 1] == c
    ensures EndsWith(s, t)
    ensures |t| == |s| || s[|s| - |t| - 1] == c
  {
    assert s[|s| - |t|..] == s[1..][|s| - 1 - |t|..];
  }

  // ---------------------------------------------------------------------
  // replace
  // ---------------------------------------------------------------------

  /** `s.replace("", rep)`: `rep` before every character and at the end. */
  function InsertEverywhere(s: string, rep: string): (r: string)
    ensures |r| == |s| + (|s| + 1) * |rep|
  {
    if s == [] then rep else rep + [s[0]] + InsertEverywhere(s[1..], rep)
  }

  /** `s.replace(pat, rep)`: every non-overlapping occurrence of `pat`,
      found scanning left to right, is replaced by `rep`. */
  function Replace(s: string, pat: string, rep: string): (r: string)
    ensures |pat| == |rep| ==> |r| == |s|
    decreases |s|
  {
    if |pat| == 0 then InsertEverywhere(s, rep)
    else if |s| < |pat| then s
    else if s[..|pat|] == pat then rep + Replace(s[|pat|..], pat, rep)
    else [s[0]] + Replace(s[1..], pat, rep)
  }

  /** A string in which `pat` never occurs is returned unchanged. */
  lemma {:induction false} ReplaceAbsent(s: string, pat: string, rep: string)
    requires forall i :: !OccursAt(s, pat, i)
    ensures Replace(s, pat, rep) == s
    decreases |s|
  {
    assert !OccursAt(s, pat, 0);
    if |s| >= |pat| {
      assert s[..|pat|] != pat;
      forall i
        ensures !OccursAt(s[1..], pat, i)
      {
        assert !OccursAt(s, pat, i + 1);
        if 0 <= i && i + |pat| <= |s| - 1 {
          assert s[1..][i..i + |pat|] == s[i + 1..i + 1 + |pat|];
        }
      }
      ReplaceAbsent(s[1..], pat, rep);
    }
  }

  /** The first occurrence is the first one replaced: when no match of
      `pat` starts inside `a`, the text `a` is copied, the `pat` after it
      becomes `rep`, and replacement resumes after it. */
  lemma {:induction false} ReplaceFirst(a: string, pat: string, b: string, rep: string)
    requires |pat| > 0
    requires forall i :: 0 <= i < |a| ==> !OccursAt(a + pat + b, pat, i)
    ensures Replace(a + pat + b, pat, rep) == a + rep + Replace(b, pat, rep)
    decreases |a|
  {
    if a == [] {
      assert a + pat + b == pat + b;
      ReplaceAtMatch(pat, b, rep);
    } else {
      ReplaceFirstStep(a, pat, b, rep);
    }
  }

  /** A string that starts with `pat` has it replaced first. */
  lemma ReplaceAtMatch(pat: string, b: string, rep: string)
    requires |pat| > 0
    ensures Replace(pat + b, pat, rep) == rep + Replace(b, pat, rep)
  {
    var s := pat + b;
    assert s[..|pat|] == pat && s[|pat|..] == b;
  }

  /** The step of `ReplaceFirst` for a non-empty `a`: its first character
      is copied. */
  lemma {:induction false} ReplaceFirstStep(a: string, pat: string, b: string, rep: string)
    requires |pat| > 0 && |a| > 0
    requires forall i :: 0 <= i < |a| ==> !OccursAt(a + pat + b, pat, i)
    ensures Replace(a + pat + b, pat, rep) == a + rep + Replace(b, pat, rep)
    decreases |a|, 0
  {
    var s := a + pat + b;
    var t := a[1..] + pat + b;
    NoMatchAfterShift(a, pat, b);
    ReplaceSkip(s, pat, rep);
    ReplaceFirst(a[1..], pat, b, rep);
    var tail := Replace(b, pat, rep);
    assert Replace(s, pat, rep) == [a[0]] + (a[1..] + rep + tail);
    assert [a[0]] + (a[1..] + rep + tail) == a + rep + tail;
  }

  /** Where no match starts, the first character is copied. */
  lemma ReplaceSkip(s: string, pat: string, rep: string)
    requires |pat| > 0 && |s| >= |pat| && s[..|pat|] != pat
    ensures Replace(s, pat, rep) == [s[0]] + Replace(s[1..], pat, rep)
  {
  }

  /** Dropping the first character of `a` keeps `a[1..]` free of matches,
      and the first character itself starts none. */
  lemma NoMatchAfterShift(a: string, pat: string, b: string)
    requires |pat| > 0 && |a| > 0
    requires forall i :: 0 <= i < |a| ==> !OccursAt(a + pat + b, pat, i)
    ensures (a + pat + b)[1..] == a[1..] + pat + b
    ensures (a + pat + b)[0] == a[0]
    ensures (a + pat + b)[..|pat|] != pat
    ensures forall i :: 0 <= i < |a| - 1 ==> !OccursAt(a[1..] + pat + b, pat, i)
  {
    var s := a + pat + b;
    var t := a[1..] + pat + b;
    assert s[1..] == t;
    assert !OccursAt(s, pat, 0);
    forall i | 0 <= i < |a| - 1
      ensures !OccursAt(t, pat, i)
    {
      assert !OccursAt(s, pat, i + 1);
      if i + |pat| <= |t| {
        assert t[i..i + |pat|] == s[i + 1..i + 1 + |pat|];
      }
    }
  }

  /** A match of `pat` cannot start strictly inside a trailing occurrence of
      `pat` when its first character does not recur in it. */
  lemma NoOverlappingMatch(a: string, pat: string)
    requires pat != [] && pat[0] !in pat[1..]
    requires 0 < |a| < |pat|
    ensures (a + pat)[..|pat|] != pat
  {
    assert (a + pat)[|a|] == pat[0];
    assert pat[|a|] == pat[1..][|a| - 1];
  }

  /** When the first character of `pat` does not recur in it, no earlier
      match can overlap a trailing occurrence, so a trailing `pat` is always
      the one replaced last. */
  lemma {:induction false} ReplaceTrailing(a: string, pat: string, rep: string)
    requires |pat| > 0 && pat[0] !in pat[1..]
    ensures Replace(a + pat, pat, rep) == Replace(a, pat, rep) + rep
    decreases |a|
  {
    var s := a + pat;
    if a == [] {
      assert s == pat && s[|pat|..] == [];
    } else if |a| < |pat| {
      ReplaceTrailingShort(a, pat, rep);
    } else {
      ReplaceTrailingLong(a, pat, rep);
    }
  }

  /** The step of `ReplaceTrailing` for a non-empty `a` shorter than `pat`:
      no match starts inside `a`, which is copied unchanged. */
  lemma {:induction false} ReplaceTrailingShort(a: string, pat: string, rep: string)
    requires |pat| > 0 && pat[0] !in pat[1..]
    requires 0 < |a| < |pat|
    ensures Replace(a + pat, pat, rep) == Replace(a, pat, rep) + rep
    decreases |a|, 0
  {
    var s := a + pat;
    NoOverlappingMatch(a, pat);
    assert Replace(s, pat, rep) == [a[0]] + Replace(s[1..], pat, rep);
    assert s[1..] == a[1..] + pat;
    ReplaceTrailing(a[1..], pat, rep);
    assert Replace(a[1..], pat, rep) == a[1..];
    assert Replace(a, pat, rep) == a == [a[0]] + a[1..];
  }

  /** The step of `ReplaceTrailing` for an `a` at least as long as `pat`,
      where the first match decision looks only at `a`. */
  lemma {:induction false} ReplaceTrailingLong(a: string, pat: string, rep: string)
    requires |pat| > 0 && pat[0] !in pat[1..]
    requires |a| >= |pat|
    ensures Replace(a + pat, pat, rep) == Replace(a, pat, rep) + rep
    decreases |a|, 0
  {
    var s := a + pat;
    assert s[..|pat|] == a[..|pat|];
    if a[..|pat|] == pat {
      assert s[|pat|..] == a[|pat|..] + pat;
      ReplaceTrailing(a[|pat|..], pat, rep);
    } else {
      assert s[1..] == a[1..] + pat;
      ReplaceTrailing(a[1..], pat, rep);
    }
  }
}
