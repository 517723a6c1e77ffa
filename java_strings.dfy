/**
 * The few `java.lang.String` operations the apps rely on, with Java's semantics:
 * `indexOf`, `split` on a one-character separator (trailing empty strings dropped),
 * `equalsIgnoreCase`, `toLowerCase` as far as file-name suffixes see it, `endsWith`
 * and `trim`.
 */
module JavaStrings {

  /** `s.indexOf(c)`, except that a missing character gives `|s|` rather than -1. */
  function IndexOf(s: string, c: char): (i: nat)
    ensures i <= |s|
    ensures i < |s| <==> c in s
    ensures i < |s| ==> s[i] == c
    ensures c !in s[..i]
  {
    if s == [] then 0
    else if s[0] == c then 0
    else
      var j := IndexOf(s[1..], c);
      assert s[..1 + j] == [s[0]] + s[1..][..j];
      1 + j
  }

  lemma {:induction false} IndexOfAfterPrefix(a: string, c: char, b: string)
    requires c !in a
    ensures IndexOf(a + [c] + b, c) == |a|
  {
    if a != [] {
      assert (a + [c] + b)[1..] == a[1..] + [c] + b;
      IndexOfAfterPrefix(a[1..], c, b);
    }
  }

  /** The pieces of `s` between the occurrences of `sep`, empty pieces included. */
  function Fields(s: string, sep: char): (r: seq<string>)
    ensures |r| >= 1
    ensures |r| == 1 <==> sep !in s
    decreases |s|
  {
    var i := IndexOf(s, sep);
    if i == |s| then [s] else [s[..i]] + Fields(s[i + 1..], sep)
  }

  /** `String.join`: the pieces with `sep` between each two. */
  function Join(parts: seq<string>, sep: char): string
    requires |parts| >= 1
  {
    if |parts| == 1 then parts[0] else parts[0] + [sep] + Join(parts[1..], sep)
  }

  /** Cutting at every separator and gluing back together gives the string again. */
  lemma {:induction false} JoinFields(s: string, sep: char)
    ensures Join(Fields(s, sep), sep) == s
    decreases |s|
  {
    if sep in s {
      var i := IndexOf(s, sep);
      var head, tail := s[..i], s[i + 1..];
      assert s == head + [sep] + tail;
      FieldsAfterPrefix(head, sep, tail);
      JoinFields(tail, sep);
      JoinCons(head, Fields(tail, sep), sep);
    }
  }

  lemma JoinCons(head: string, rest: seq<string>, sep: char)
    requires |rest| >= 1
    ensures Join([head] + rest, sep) == head + [sep] + Join(rest, sep)
  {
    assert ([head] + rest)[1..] == rest;
  }

  /** A first piece free of the separator becomes the first field. */
  lemma FieldsAfterPrefix(a: string, sep: char, b: string)
    requires sep !in a
    ensures Fields(a + [sep] + b, sep) == [a] + Fields(b, sep)
  {
    var s := a + [sep] + b;
    IndexOfAfterPrefix(a, sep, b);
    assert s[..|a|] == a;
    assert s[|a| + 1..] == b;
  }

  /** Java's `split` with limit 0 discards the empty strings at the end of the result. */
  function DropTrailingEmpty(parts: seq<string>): (r: seq<string>)
    ensures r <= parts
    ensures r == [] || r[|r| - 1] != ""
    ensures forall k :: |r| <= k < |parts| ==> parts[k] == ""
  {
    if parts == [] then []
    else if parts[|parts| - 1] == "" then DropTrailingEmpty(parts[..|parts| - 1])
    else parts
  }

  /**
   * `s.split(sep)` for a separator that is a single ordinary character: a string
   * without the separator comes back as the only element (even when it is empty);
   * otherwise the fields, without the empty ones at the end.
   */
  function Split(s: string, sep: char): (r: seq<string>)
    ensures r <= Fields(s, sep)
    ensures forall k :: |r| <= k < |Fields(s, sep)| ==> Fields(s, sep)[k] == ""
    ensures sep !in s ==> r == [s]
    ensures sep in s ==> r == [] || r[|r| - 1] != ""
  {
    if sep !in s then [s] else DropTrailingEmpty(Fields(s, sep))
  }

  /**
   * Nothing but empty pieces is lost: putting back as many empty strings as were
   * dropped and joining gives the string again.
   */
  lemma SplitJoin(s: string, sep: char)
    ensures var n := |Fields(s, sep)| - |Split(s, sep)|;
            |Split(s, sep)| + n >= 1 && Join(Split(s, sep) + seq(n, _ => ""), sep) == s
  {
    var r, f := Split(s, sep), Fields(s, sep);
    var n := |f| - |r|;
    assert r + seq(n, _ => "") == f;
    JoinFields(s, sep);
  }

  /** No piece of a split contains the separator, so `split[1]` is one path segment. */
  lemma {:induction false} FieldsHaveNoSeparator(s: string, sep: char)
    ensures forall k :: 0 <= k < |Fields(s, sep)| ==> sep !in Fields(s, sep)[k]
    decreases |s|
  {
    if sep in s {
      var i := IndexOf(s, sep);
      var head, tail := s[..i], s[i + 1..];
      assert s == head + [sep] + tail;
      FieldsAfterPrefix(head, sep, tail);
      FieldsHaveNoSeparator(tail, sep);
    }
  }

  lemma SplitPiecesHaveNoSeparator(s: string, sep: char)
    ensures forall k :: 0 <= k < |Split(s, sep)| ==> sep !in Split(s, sep)[k]
  {
    FieldsHaveNoSeparator(s, sep);
  }

  /** A trailing empty piece goes, a non-empty one and everything before it stays. */
  lemma DropTrailingEmptyKeeps(parts: seq<string>, k: nat)
    requires k < |parts| && parts[k] != ""
    ensures k < |DropTrailingEmpty(parts)|
    ensures DropTrailingEmpty(parts)[..k + 1] == parts[..k + 1]
  {
  }

  /** `"a:b".split(":")` and `"a:b:..."`.split(":") start with `a` and `b` when `b` is not empty. */
  lemma SplitFirstTwo(a: string, sep: char, b: string, rest: string)
    requires sep !in a && sep !in b && b != ""
    requires rest == [] || rest[0] == sep
    ensures |Split(a + [sep] + b + rest, sep)| >= 2
    ensures Split(a + [sep] + b + rest, sep)[0] == a
    ensures Split(a + [sep] + b + rest, sep)[1] == b
  {
    var t := b + rest;
    var s := a + [sep] + b + rest;
    assert s == a + [sep] + t;
    assert s[|a|] == sep;
    FieldsAfterPrefix(a, sep, t);
    FieldsHead(b, sep, rest);
    var parts := Fields(s, sep);
    assert parts == [a] + Fields(t, sep);
    DropTrailingEmptyKeeps(parts, 1);
  }

  /** A first piece that is followed by nothing or by the separator is the first field. */
  lemma FieldsHead(b: string, sep: char, rest: string)
    requires sep !in b
    requires rest == [] || rest[0] == sep
    ensures Fields(b + rest, sep)[0] == b
  {
    if rest == [] {
      assert b + rest == b;
    } else {
      assert b + rest == b + [sep] + rest[1..];
      FieldsAfterPrefix(b, sep, rest[1..]);
    }
  }

  /** `"a::x".split(":")` keeps the empty middle piece: `["a", "", "x"]`. */
  lemma SplitEmptyMiddle(a: string, sep: char, x: string)
    requires sep !in a && sep !in x && x != ""
    ensures |Split(a + [sep] + [] + [sep] + x, sep)| >= 2
    ensures Split(a + [sep] + [] + [sep] + x, sep)[0] == a
    ensures Split(a + [sep] + [] + [sep] + x, sep)[1] == ""
  {
    var tail := [] + [sep] + x;
    var s := a + [sep] + [] + [sep] + x;
    var parts := Fields(s, sep);
    assert parts == [a, "", x] by {
      assert s == a + [sep] + tail;
      FieldsAfterPrefix(a, sep, tail);
      FieldsAfterPrefix([], sep, x);
    }
    assert sep in s by { assert s[|a|] == sep; }
    assert DropTrailingEmpty(parts)[..3] == parts by { DropTrailingEmptyKeeps(parts, 2); }
  }

  /** `"a:".split(":")` is `["a"]`: the empty string after the separator is dropped. */
  lemma SplitTrailingSeparator(a: string, sep: char)
    requires sep !in a && a != ""
    ensures Split(a + [sep], sep) == [a]
  {
    assert a + [sep] == a + [sep] + [];
    assert (a + [sep])[|a|] == sep;
    FieldsAfterPrefix(a, sep, []);
    assert Fields([], sep) == [""];
    assert Fields(a + [sep], sep) == [a, ""];
    assert [a, ""][..1] == [a];
    assert DropTrailingEmpty([a]) == [a];
  }

  /** A string of separators only splits into nothing at all. */
  lemma {:induction false} SplitOfSeparatorsOnly(s: string, sep: char)
    requires s != [] && forall i :: 0 <= i < |s| ==> s[i] == sep
    ensures Split(s, sep) == []
  {
    FieldsOfSeparatorsOnly(s, sep);
    DropAllEmpty(Fields(s, sep));
  }

  lemma {:induction false} FieldsOfSeparatorsOnly(s: string, sep: char)
    requires forall i :: 0 <= i < |s| ==> s[i] == sep
    ensures forall k :: 0 <= k < |Fields(s, sep)| ==> Fields(s, sep)[k] == ""
    decreases |s|
  {
    if s != [] {
      assert s == [] + [sep] + s[1..];
      FieldsAfterPrefix([], sep, s[1..]);
      FieldsOfSeparatorsOnly(s[1..], sep);
    }
  }

  lemma {:induction false} DropAllEmpty(parts: seq<string>)
    requires forall k :: 0 <= k < |parts| ==> parts[k] == ""
    ensures DropTrailingEmpty(parts) == []
    decreases |parts|
  {
    if parts != [] {
      DropAllEmpty(parts[..|parts| - 1]);
    }
  }

  /**
   * `Character.toUpperCase` on the characters whose upper case is an ASCII letter:
   * the ASCII lower-case letters, dotless i (U+0131) and long s (U+017F).
   * Every other character is left alone.
   */
  function FoldUpper(c: char): char
  {
    if 'a' <= c <= 'z' then (c as int - 32) as char
    else if c == '\U{0131}' then 'I'
    else if c == '\U{017F}' then 'S'
    else c
  }

  /**
   * `Character.toLowerCase` on the characters whose lower case is an ASCII letter:
   * the ASCII upper-case letters, capital I with dot (U+0130) and the Kelvin sign (U+212A).
   */
  function FoldLower(c: char): char
  {
    if 'A' <= c <= 'Z' then (c as int + 32) as char
    else if c == '\U{0130}' then 'i'
    else if c == '\U{212A}' then 'k'
    else c
  }

  /** The character test of `String.regionMatches(true, ...)`, which `equalsIgnoreCase` uses. */
  predicate SameIgnoringCase(a: char, b: char)
  {
    a == b || FoldUpper(a) == FoldUpper(b) || FoldLower(FoldUpper(a)) == FoldLower(FoldUpper(b))
  }

  /** `a.equalsIgnoreCase(b)`; exact whenever one of the two strings is ASCII. */
  predicate EqualsIgnoreCase(a: string, b: string)
    ensures EqualsIgnoreCase(a, b) ==> |a| == |b|
    ensures a == b ==> EqualsIgnoreCase(a, b)
  {
    |a| == |b| && forall i :: 0 <= i < |a| ==> SameIgnoringCase(a[i], b[i])
  }

  /** The comparison does not depend on which string is the receiver. */
  lemma EqualsIgnoreCaseSymmetric(a: string, b: string)
    ensures EqualsIgnoreCase(a, b) <==> EqualsIgnoreCase(b, a)
  {
  }

  predicate IsAsciiLetter(c: char)
  {
    'a' <= c <= 'z' || 'A' <= c <= 'Z'
  }

  /**
   * `s.toLowerCase()` as seen by `endsWith` with an ASCII suffix: only the ASCII
   * upper-case letters change (no other character lower-cases to an ASCII letter
   * other than 'i' and 'k', and those two come from characters outside the suffixes used here).
   */
  function ToLower(s: string): (r: string)
    ensures |r| == |s|
    ensures forall i :: 0 <= i < |s| ==> r[i] == (if 'A' <= s[i] <= 'Z' then (s[i] as int + 32) as char else s[i])
  {
    if s == [] then [] else ToLower(s[..|s| - 1]) + [LowerAscii(s[|s| - 1])]
  }

  function LowerAscii(c: char): char
  {
    if 'A' <= c <= 'Z' then (c as int + 32) as char else c
  }

  /** `s.endsWith(suffix)`. */
  predicate EndsWith(s: string, suffix: string)
    ensures EndsWith(s, suffix) ==> |suffix| <= |s| && s == s[..|s| - |suffix|] + suffix
  {
    |suffix| <= |s| && s[|s| - |suffix|..] == suffix
  }

  /** Every string ending in `suffix` is some string followed by `suffix`, and conversely. */
  lemma EndsWithAppended(p: string, suffix: string)
    ensures EndsWith(p + suffix, suffix)
    ensures forall s :: EndsWith(s, suffix) && |s| == |p| + |suffix| ==> s[..|p|] + suffix == s
  {
    assert (p + suffix)[|p|..] == suffix;
  }

  /** Every character of `t` is at most U+0020, the ones `trim` removes. */
  predicate AllBlank(t: string)
  {
    forall k :: 0 <= k < |t| ==> t[k] <= ' '
  }

  /**
   * `String.trim`: drops the characters up to U+0020 at both ends, and only
   * those; a string with neither end blank comes back as it is.
   */
  function Trim(s: string): (r: string)
    ensures r == [] || (r[0] > ' ' && r[|r| - 1] > ' ')
    ensures var st := TrimStart(s);
            st + |r| <= |s| && r == s[st..st + |r|] && AllBlank(s[..st]) && AllBlank(s[st + |r|..])
    ensures s == [] || (s[0] > ' ' && s[|s| - 1] > ' ') ==> r == s
  {
    var st := TrimStart(s);
    s[st..TrimEnd(s, st)]
  }

  /** The first loop of `trim`: the index of the first character above U+0020, or `|s|`. */
  function TrimStart(s: string): (st: nat)
    ensures st <= |s| && (st == |s| || s[st] > ' ') && AllBlank(s[..st])
  {
    if s == [] || s[0] > ' ' then 0
    else
      var st := 1 + TrimStart(s[1..]);
      assert s[..st] == [s[0]] + s[1..][..st - 1];
      st
  }

  /** The second loop of `trim`: one past the last character above U+0020 from `st` on, or `st`. */
  function TrimEnd(s: string, st: nat): (len: nat)
    requires st <= |s|
    ensures st <= len <= |s| && (len == st || s[len - 1] > ' ') && AllBlank(s[len..])
    decreases |s|
  {
    if |s| == st || s[|s| - 1] > ' ' then |s|
    else
      var len := TrimEnd(s[..|s| - 1], st);
      assert s[len..] == s[..|s| - 1][len..] + [s[|s| - 1]];
      len
  }
}
