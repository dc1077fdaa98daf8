/**
 * The PHP string built-ins the plugins rely on, over strings of single-byte characters:
 * `trim`, the character classes of PCRE's `\s` and of the `/i` flag, `implode`/`explode`
 * and `strpos`, together with PHP's notion of an "empty" string value.
 */
module PhpText {
  import opened Wrappers

  /** PCRE's `\s` outside UTF mode: space, tab, line feed, vertical tab, form feed, carriage return. */
  predicate IsPcreSpace(c: char) {
    c == ' ' || c == '\t' || c == '\n' || c == '\U{B}' || c == '\U{C}' || c == '\r'
  }

  /** The characters PHP's `trim` removes by default: space, tab, line feed, carriage return, NUL, vertical tab. */
  predicate IsTrimChar(c: char) {
    c == ' ' || c == '\t' || c == '\n' || c == '\r' || c == '\0' || c == '\U{B}'
  }

  /** The word characters of the class `[a-z0-9_]` under the `/i` flag. */
  predicate IsWordChar(c: char) {
    ('a' <= c <= 'z') || ('A' <= c <= 'Z') || ('0' <= c <= '9') || c == '_'
  }

  predicate AllTrim(s: string) {
    forall i :: 0 <= i < |s| ==> IsTrimChar(s[i])
  }

  /** ASCII case folding, as PCRE's `/i` does outside UTF mode. */
  function Lower(c: char): char {
    if 'A' <= c <= 'Z' then (c as int + 32) as char else c
  }

  /** Equality up to ASCII case. */
  predicate CaseEq(a: string, b: string) {
    |a| == |b| && forall i :: 0 <= i < |a| ==> Lower(a[i]) == Lower(b[i])
  }

  /** PHP's truthiness of a possibly-null string: `null`, `""` and `"0"` are falsy. */
  predicate Truthy(v: Option<string>) {
    v.Some? && v.value != "" && v.value != "0"
  }

  /** The first index at or after `i` that does not hold a `\s` character (or `|s|`). */
  function SkipSpaces(s: string, i: nat): (j: nat)
    requires i <= |s|
    ensures i <= j <= |s|
    ensures forall k :: i <= k < j ==> IsPcreSpace(s[k])
    ensures j < |s| ==> !IsPcreSpace(s[j])
    decreases |s| - i
  {
    if i < |s| && IsPcreSpace(s[i]) then SkipSpaces(s, i + 1) else i
  }

  /** The first index at or after `i` that does not hold a word character (or `|s|`). */
  function SkipWord(s: string, i: nat): (j: nat)
    requires i <= |s|
    ensures i <= j <= |s|
    ensures forall k :: i <= k < j ==> IsWordChar(s[k])
    ensures j < |s| ==> !IsWordChar(s[j])
    decreases |s| - i
  {
    if i < |s| && IsWordChar(s[i]) then SkipWord(s, i + 1) else i
  }

  // ---------------------------------------------------------------- trim

  /** SkipSpaces stops exactly at the end of a run of `\s` characters. */
  lemma SkipSpacesStopsAt(s: string, i: nat, j: nat)
    requires i <= j <= |s|
    requires forall k :: i <= k < j ==> IsPcreSpace(s[k])
    requires j < |s| ==> !IsPcreSpace(s[j])
    ensures SkipSpaces(s, i) == j
  {
  }

  /** SkipWord stops exactly at the end of a run of word characters. */
  lemma SkipWordStopsAt(s: string, i: nat, j: nat)
    requires i <= j <= |s|
    requires forall k :: i <= k < j ==> IsWordChar(s[k])
    requires j < |s| ==> !IsWordChar(s[j])
    ensures SkipWord(s, i) == j
  {
  }

  /** `ltrim`: drops the leading trim characters. */
  function TrimLeft(s: string): (r: string)
    ensures |r| <= |s|
  {
    if |s| > 0 && IsTrimChar(s[0]) then TrimLeft(s[1..]) else s
  }

  /** `rtrim`: drops the trailing trim characters. */
  function TrimRight(s: string): (r: string)
    ensures |r| <= |s|
  {
    if |s| > 0 && IsTrimChar(s[|s| - 1]) then TrimRight(s[..|s| - 1]) else s
  }

  /** `ltrim` removes a run of trim characters from the front, and no more. */
  lemma {:induction false} TrimLeftShape(s: string)
    ensures var r := TrimLeft(s);
      && |r| <= |s| && r == s[|s| - |r|..]
      && AllTrim(s[..|s| - |r|])
      && (r == [] || !IsTrimChar(r[0]))
    decreases |s|
  {
    if |s| > 0 && IsTrimChar(s[0]) {
      TrimLeftShape(s[1..]);
      var r := TrimLeft(s[1..]);
      assert s[1..][..|s[1..]| - |r|] == s[1..|s| - |r|];
    }
  }

  /** `rtrim` removes a run of trim characters from the back, and no more. */
  lemma {:induction false} TrimRightShape(s: string)
    ensures var r := TrimRight(s);
      && |r| <= |s| && r == s[..|r|]
      && AllTrim(s[|r|..])
      && (r == [] || !IsTrimChar(r[|r| - 1]))
    decreases |s|
  {
    if |s| > 0 && IsTrimChar(s[|s| - 1]) {
      TrimRightShape(s[..|s| - 1]);
      var r := TrimRight(s[..|s| - 1]);
      assert s[..|s| - 1][|r|..] + [s[|s| - 1]] == s[|r|..];
    }
  }

  /** PHP's `trim`. */
  function Trim(s: string): string {
    TrimRight(TrimLeft(s))
  }

  /**
   * What `trim` does: the result is the middle of `s` once a run of trim characters is
   * removed at each end, and it neither starts nor ends with one.
   */
  lemma TrimShape(s: string)
    ensures var r, k := Trim(s), |s| - |TrimLeft(s)|;
      && k + |r| <= |s| && s[k..k + |r|] == r && AllTrim(s[..k]) && AllTrim(s[k + |r|..])
      && (r == [] || (!IsTrimChar(r[0]) && !IsTrimChar(r[|r| - 1])))
  {
    var l := TrimLeft(s);
    var r := TrimRight(l);
    var k := |s| - |l|;
    TrimLeftShape(s);
    TrimRightShape(l);
    assert s[k..] == l;
    assert s[k..k + |r|] == l[..|r|];
    assert s[k + |r|..] == l[|r|..];
  }

  /** Trimming a core that has no trim character at either end, padded by trim characters, gives back the core. */
  lemma {:induction false} TrimPadded(pre: string, x: string, post: string)
    requires AllTrim(pre) && AllTrim(post)
    requires x == [] || (!IsTrimChar(x[0]) && !IsTrimChar(x[|x| - 1]))
    ensures Trim(pre + x + post) == x
  {
    if x == [] {
      assert pre + x + post == (pre + post) + [];
      TrimLeftPadded(pre + post, []);
    } else {
      assert pre + x + post == pre + (x + post);
      TrimLeftPadded(pre, x + post);
      TrimRightPadded(x, post);
    }
  }

  lemma {:induction false} TrimLeftPadded(pre: string, rest: string)
    requires AllTrim(pre)
    requires rest == [] || !IsTrimChar(rest[0])
    ensures TrimLeft(pre + rest) == rest
    decreases |pre|
  {
    if pre != [] {
      assert (pre + rest)[1..] == pre[1..] + rest;
      TrimLeftPadded(pre[1..], rest);
    } else {
      assert pre + rest == rest;
    }
  }

  lemma {:induction false} TrimRightPadded(x: string, post: string)
    requires AllTrim(post)
    requires x == [] || !IsTrimChar(x[|x| - 1])
    ensures TrimRight(x + post) == x
    decreases |post|
  {
    if post != [] {
      assert (x + post)[..|x + post| - 1] == x + post[..|post| - 1];
      TrimRightPadded(x, post[..|post| - 1]);
    } else {
      assert x + post == x;
    }
  }

  /** Trimming twice is trimming once: a trimmed value read back and trimmed again is unchanged. */
  lemma TrimIdempotent(s: string)
    ensures Trim(Trim(s)) == Trim(s)
  {
    var t := Trim(s);
    TrimShape(s);
    TrimPadded([], t, []);
    assert [] + t + [] == t;
  }

  // ------------------------------------------------------ implode / explode

  /** PHP's `implode(sep, xs)`. */
  function Join(sep: string, xs: seq<string>): string {
    if |xs| == 0 then ""
    else if |xs| == 1 then xs[0]
    else xs[0] + sep + Join(sep, xs[1..])
  }

  /** PHP's `explode` on a one-character separator: the pieces between consecutive separators. */
  function Split(s: string, c: char): (parts: seq<string>)
    ensures |parts| >= 1
  {
    if |s| == 0 then [""]
    else
      var rest := Split(s[1..], c);
      if s[0] == c then [""] + rest else [[s[0]] + rest[0]] + rest[1..]
  }

  /** Every element of `xs` is prefixed with `p`. */
  function Prefixed(p: string, xs: seq<string>): (r: seq<string>)
    ensures |r| == |xs|
    ensures forall i :: 0 <= i < |xs| ==> r[i] == p + xs[i]
  {
    if xs == [] then [] else [p + xs[0]] + Prefixed(p, xs[1..])
  }

  lemma {:induction false} JoinAppend(sep: string, a: seq<string>, b: seq<string>)
    requires |a| >= 1 && |b| >= 1
    ensures Join(sep, a + b) == Join(sep, a) + sep + Join(sep, b)
    decreases |a|
  {
    if |a| == 1 {
      assert (a + b)[1..] == b;
    } else {
      assert (a + b)[1..] == a[1..] + b;
      JoinAppend(sep, a[1..], b);
    }
  }

  /**
   * `"- " . implode("\n- ", xs)` is the same text as the lines `"- " + x`, one per element,
   * joined by line feeds.
   */
  lemma {:induction false} BulletJoin(xs: seq<string>)
    requires |xs| >= 1
    ensures "- " + Join("\n- ", xs) == Join("\n", Prefixed("- ", xs))
    decreases |xs|
  {
    if |xs| > 1 {
      BulletJoin(xs[1..]);
      assert Prefixed("- ", xs)[1..] == Prefixed("- ", xs[1..]);
    }
  }

  lemma {:induction false} SplitNoSeparator(a: string, c: char)
    requires c !in a
    ensures Split(a, c) == [a]
    decreases |a|
  {
    if |a| > 0 {
      SplitNoSeparator(a[1..], c);
      assert [a[0]] + a[1..] == a;
    }
  }

  lemma {:induction false} SplitAfterSeparator(a: string, c: char, b: string)
    requires c !in a
    ensures Split(a + [c] + b, c) == [a] + Split(b, c)
    decreases |a|
  {
    var s := a + [c] + b;
    if |a| == 0 {
      assert s[1..] == b;
    } else {
      assert s[1..] == a[1..] + [c] + b;
      SplitAfterSeparator(a[1..], c, b);
      assert [a[0]] + a[1..] == a;
    }
  }

  /** Splitting lines that hold no separator, joined and followed by a separator and more text, gives those lines back first. */
  lemma {:induction false} SplitJoinThen(xs: seq<string>, c: char, rest: string)
    requires |xs| >= 1
    requires forall i :: 0 <= i < |xs| ==> c !in xs[i]
    ensures Split(Join([c], xs) + [c] + rest, c) == xs + Split(rest, c)
    decreases |xs|
  {
    if |xs| == 1 {
      SplitAfterSeparator(xs[0], c, rest);
    } else {
      var j := Join([c], xs[1..]);
      var tail := j + [c] + rest;
      assert Join([c], xs) + [c] + rest == xs[0] + [c] + tail by {
        assert Join([c], xs) == xs[0] + [c] + j;
      }
      assert Split(xs[0] + [c] + tail, c) == [xs[0]] + Split(tail, c) by {
        SplitAfterSeparator(xs[0], c, tail);
      }
      assert Split(tail, c) == xs[1..] + Split(rest, c) by {
        SplitJoinThen(xs[1..], c, rest);
      }
      assert [xs[0]] + (xs[1..] + Split(rest, c)) == xs + Split(rest, c);
    }
  }

  lemma {:induction false} JoinFree(sep: string, xs: seq<string>, c: char)
    requires c !in sep
    requires forall i :: 0 <= i < |xs| ==> c !in xs[i]
    ensures c !in Join(sep, xs)
    decreases |xs|
  {
    if |xs| > 1 {
      JoinFree(sep, xs[1..], c);
    }
  }

  // ---------------------------------------------------------------- strpos

  predicate OccursAt(hay: string, needle: string, k: nat) {
    k + |needle| <= |hay| && hay[k..k + |needle|] == needle
  }

  /** An occurrence inside a slice is an occurrence in the whole text, shifted by the slice's start. */
  lemma OccursInSlice(hay: string, start: nat, len: nat, needle: string, k: nat)
    requires start + len <= |hay| && OccursAt(hay[start..start + len], needle, k)
    ensures OccursAt(hay, needle, start + k) && start <= start + k && start + k + |needle| <= start + len
  {
    var part := hay[start..start + len];
    var a, b := hay[start + k..start + k + |needle|], part[k..k + |needle|];
    forall d | 0 <= d < |needle|
      ensures a[d] == b[d]
    {
      assert a[d] == hay[start + k + d];
      assert b[d] == part[k + d] == hay[start + k + d];
    }
    assert a == b;
  }

  /** PHP's `strpos(hay, needle, from)`: the leftmost occurrence at or after `from`, if any. */
  function StrPos(hay: string, needle: string, from: nat): (r: Option<nat>)
    ensures r.Some? ==> from <= r.value && OccursAt(hay, needle, r.value)
    ensures r.Some? ==> forall k :: from <= k < r.value ==> !OccursAt(hay, needle, k)
    ensures r.None? ==> forall k :: from <= k ==> !OccursAt(hay, needle, k)
    decreases |hay| - from
  {
    if from + |needle| > |hay| then None
    else if hay[from..from + |needle|] == needle then Some(from)
    else StrPos(hay, needle, from + 1)
  }
}
