/** Option and Result, used for the proxy's failure paths instead of exceptions. */
module Wrappers {
  datatype Option<+T> = None | Some(value: T) {
    /** The value, or `default` when absent. */
    function GetOr(default: T): T {
      if Some? then value else default
    }

    /** This option when present, `other` otherwise. */
    function OrElse(other: Option<T>): Option<T> {
      if Some? then this else other
    }
  }

  datatype Result<+T, +E> = Success(value: T) | Failure(error: E)
}

/** The .NET string operations the proxy relies on, written out over `seq<char>`. */
module Strings {
  import opened Wrappers

  /** Char.IsWhiteSpace: U+0009..U+000D, U+0085 and the Unicode space, line and paragraph separators. */
  predicate IsWhiteSpace(c: char) {
    || ('\t' <= c <= '\r')
    || c == ' ' || c == '\U{85}' || c == '\U{A0}' || c == '\U{1680}'
    || ('\U{2000}' <= c <= '\U{200A}')
    || c == '\U{2028}' || c == '\U{2029}' || c == '\U{202F}' || c == '\U{205F}' || c == '\U{3000}'
  }

  /** String.IsNullOrWhiteSpace, for a string that is present. */
  predicate IsBlank(s: string) {
    forall i :: 0 <= i < |s| ==> IsWhiteSpace(s[i])
  }

  /** The number of white-space characters at the start of `s`. */
  function LeadingWhiteSpace(s: string): (n: nat)
    ensures n <= |s| && IsBlank(s[..n])
    ensures n < |s| ==> !IsWhiteSpace(s[n])
  {
    if s == [] || !IsWhiteSpace(s[0]) then 0
    else
      var n := 1 + LeadingWhiteSpace(s[1..]);
      assert s[..n] == [s[0]] + s[1..][..n - 1];
      n
  }

  /** The number of white-space characters at the end of `s`. */
  function TrailingWhiteSpace(s: string): (n: nat)
    ensures n <= |s| && IsBlank(s[|s| - n..])
    ensures n < |s| ==> !IsWhiteSpace(s[|s| - n - 1])
  {
    if s == [] || !IsWhiteSpace(s[|s| - 1]) then 0
    else
      var init := s[..|s| - 1];
      var n := 1 + TrailingWhiteSpace(init);
      assert s[|s| - n..] == init[|init| - (n - 1)..] + [s[|s| - 1]];
      n
  }

  /** String.Trim: `s` without its leading and trailing white space. What it keeps starts
      and ends with a character that is not white space, sits right after the leading white
      space, and only white space follows it; it is empty exactly when `s` is blank. */
  function Trim(s: string): (r: string)
    ensures |r| <= |s|
    ensures StripsBothEnds(s, LeadingWhiteSpace(s), r)
  {
    var k := LeadingWhiteSpace(s);
    var t := s[k..];
    var m := TrailingWhiteSpace(t);
    TrimmedSlice(s, k, t, m, t[..|t| - m]);
    t[..|t| - m]
  }

  /** `r` is `s` from index `k` on without white space at either end, `k` being the length
      of the white space `s` starts with. */
  ghost predicate StripsBothEnds(s: string, k: nat, r: string) {
    && (IsBlank(s) <==> r == [])
    && (r != [] ==> !IsWhiteSpace(r[0]) && !IsWhiteSpace(r[|r| - 1]))
    && k + |r| <= |s| && s[k..k + |r|] == r && IsBlank(s[k + |r|..])
  }

  lemma TrimmedSlice(s: string, k: nat, t: string, m: nat, r: string)
    requires k <= |s| && IsBlank(s[..k]) && (k < |s| ==> !IsWhiteSpace(s[k]))
    requires t == s[k..] && m <= |t| && IsBlank(t[|t| - m..])
    requires m < |t| ==> !IsWhiteSpace(t[|t| - m - 1])
    requires r == t[..|t| - m]
    ensures StripsBothEnds(s, k, r)
  {
    assert s[k + |r|..] == t[|t| - m..];
    if k < |s| {
      assert t[0] == s[k];
    }
    if r == [] {
      assert s == s[..k] + s[k..];
    } else {
      assert r[0] == s[k];
      assert r[|r| - 1] == t[|t| - m - 1];
    }
  }

  /** Char.ToLower on ASCII letters; every other character is left alone. */
  function LowerChar(c: char): char {
    if 'A' <= c <= 'Z' then (c as int - 'A' as int + 'a' as int) as char else c
  }

  /** String.ToLower, character by character: no ASCII capital is left, and a character
      changes only when it is a capital, into the letter 32 code points above it. */
  function ToLower(s: string): (r: string)
    ensures |r| == |s|
    ensures forall i :: 0 <= i < |r| ==> !('A' <= r[i] <= 'Z')
    ensures forall i :: 0 <= i < |r| ==> r[i] == s[i] || ('A' <= s[i] <= 'Z' && r[i] as int == s[i] as int + 32)
  {
    seq(|s|, i requires 0 <= i < |s| => LowerChar(s[i]))
  }

  /** `pat` occurs in `s` starting at index `k`. */
  predicate OccursAt(s: string, pat: string, k: nat) {
    k + |pat| <= |s| && s[k..k + |pat|] == pat
  }

  /** The first index at or after `from` where `pat` occurs in `s`. */
  function IndexOfFrom(s: string, pat: string, from: nat): (r: Option<nat>)
    requires from <= |s|
    ensures r.Some? ==> from <= r.value && OccursAt(s, pat, r.value)
    ensures r.Some? ==> forall k :: from <= k < r.value ==> !OccursAt(s, pat, k)
    ensures r.None? ==> forall k :: from <= k ==> !OccursAt(s, pat, k)
    decreases |s| - from
  {
    if from + |pat| > |s| then None
    else if OccursAt(s, pat, from) then Some(from)
    else IndexOfFrom(s, pat, from + 1)
  }

  /** String.Split(new[] { sep }, 2, StringSplitOptions.None): the text before the first
      occurrence of `sep` and, when there is one, the whole text after it. */
  function SplitOnce(s: string, sep: string): (r: (string, Option<string>))
    ensures r.1.None? ==> r.0 == s && forall k: nat :: !OccursAt(s, sep, k)
    ensures r.1.Some? ==> s == r.0 + sep + r.1.value
    ensures r.1.Some? ==> forall k: nat :: k < |r.0| ==> !OccursAt(s, sep, k)
  {
    match IndexOfFrom(s, sep, 0)
    case None => (s, None)
    case Some(i) =>
      assert s == s[..i] + sep + s[i + |sep|..];
      (s[..i], Some(s[i + |sep|..]))
  }

  /** Concatenation regrouped. */
  lemma ConcatAssoc<T>(a: seq<T>, b: seq<T>, c: seq<T>)
    ensures (a + b) + c == a + (b + c)
  {
  }

  /** `s` holds no `c`. */
  predicate Free(s: string, c: char) {
    forall j :: 0 <= j < |s| ==> s[j] != c
  }

  /** The index of the first `c` in `s`, or |s| when there is none. */
  function IndexOfChar(s: string, c: char): (i: nat)
    ensures i <= |s| && Free(s[..i], c) && (i < |s| ==> s[i] == c)
  {
    if s == [] || s[0] == c then 0
    else
      var i := 1 + IndexOfChar(s[1..], c);
      assert s[..i] == [s[0]] + s[1..][..i - 1];
      i
  }

  /** String.Join with a one-character separator. */
  function Join(parts: seq<string>, c: char): string {
    if |parts| == 0 then ""
    else if |parts| == 1 then parts[0]
    else parts[0] + [c] + Join(parts[1..], c)
  }

  /** Joining a first part before a non-empty list puts one separator between them. */
  lemma JoinCons(first: string, rest: seq<string>, c: char)
    requires rest != []
    ensures Join([first] + rest, c) == first + [c] + Join(rest, c)
  {
    assert ([first] + rest)[1..] == rest;
  }

  /** A joined text starts with its first part. */
  lemma JoinStartsWithFirst(parts: seq<string>, c: char)
    requires parts != []
    ensures parts[0] <= Join(parts, c)
  {
    if |parts| > 1 {
      assert Join(parts, c) == parts[0] + ([c] + Join(parts[1..], c));
    }
  }

  /** String.Split(new[] { c }, count) with StringSplitOptions.None: at most `count` parts,
      the last of which keeps the rest of the text, separators included. */
  function Split(s: string, c: char, count: nat): (parts: seq<string>)
    requires count >= 1
    ensures 1 <= |parts| <= count
    ensures Join(parts, c) == s
    ensures forall i :: 0 <= i < |parts| - 1 ==> Free(parts[i], c)
    ensures |parts| < count ==> Free(parts[|parts| - 1], c)
    decreases count
  {
    var i := IndexOfChar(s, c);
    if count == 1 then [s]
    else if i == |s| then
      assert s[..i] == s;
      [s]
    else
      var rest := Split(s[i + 1..], c, count - 1);
      JoinCons(s[..i], rest, c);
      assert s == s[..i] + [c] + s[i + 1..];
      [s[..i]] + rest
  }

  /** The first `c` in `a + [c] + b` is the one after `a`, when `a` has none. */
  lemma IndexOfCharAfter(a: string, c: char, b: string)
    requires Free(a, c)
    ensures IndexOfChar(a + [c] + b, c) == |a|
  {
    var s := a + [c] + b;
    assert s[|a|] == c;
    assert forall j :: 0 <= j < |a| ==> s[j] == a[j];
  }

  /** Splitting is determined by its contract: any list of parts that joins back to `s`
      and has no separator where Split puts none is Split's own answer. */
  lemma {:induction false} SplitUnique(s: string, c: char, count: nat, parts: seq<string>)
    requires count >= 1 && 1 <= |parts| <= count
    requires Join(parts, c) == s
    requires forall i :: 0 <= i < |parts| - 1 ==> Free(parts[i], c)
    requires |parts| < count ==> Free(parts[|parts| - 1], c)
    ensures Split(s, c, count) == parts
    decreases count
  {
    if |parts| == 1 {
      assert s == parts[0];
      assert IndexOfChar(s, c) == |s| || count == 1;
    } else {
      var rest := parts[1..];
      SplitTail(c, count, parts);
      SplitUnique(Join(rest, c), c, count - 1, rest);
      JoinCons(parts[0], rest, c);
      assert parts == [parts[0]] + rest;
      SplitFirstPart(s, c, count, parts[0], rest);
    }
  }

  /** The parts after the first still meet Split's contract, for one part fewer. */
  lemma SplitTail(c: char, count: nat, parts: seq<string>)
    requires 2 <= |parts| <= count
    requires forall i :: 0 <= i < |parts| - 1 ==> Free(parts[i], c)
    requires |parts| < count ==> Free(parts[|parts| - 1], c)
    ensures Free(parts[0], c)
    ensures var rest := parts[1..];
      && (forall i :: 0 <= i < |rest| - 1 ==> Free(rest[i], c))
      && (|rest| < count - 1 ==> Free(rest[|rest| - 1], c))
  {
    var rest := parts[1..];
    forall i | 0 <= i < |rest| - 1 ensures Free(rest[i], c) {
      assert rest[i] == parts[i + 1];
    }
    assert rest[|rest| - 1] == parts[|parts| - 1];
  }

  /** One step of SplitUnique: a separator-free first part is split off first. */
  lemma SplitFirstPart(s: string, c: char, count: nat, p0: string, rest: seq<string>)
    requires count >= 2 && rest != []
    requires s == p0 + [c] + Join(rest, c) && Free(p0, c)
    requires Split(Join(rest, c), c, count - 1) == rest
    ensures Split(s, c, count) == [p0] + rest
  {
    var tail := Join(rest, c);
    IndexOfCharAfter(p0, c, tail);
    assert s[|p0| + 1..] == tail && s[..|p0|] == p0;
  }
}
