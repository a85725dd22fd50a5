/** The three string operations the prompt is assembled with: `join` on a
    slice of strings, `trim`, and splitting at a separator (the inverse of
    `join`, used to read a prompt line back). */
module Strings {

  /** Rust's `char::is_whitespace`: the Unicode White_Space property. */
  predicate IsWhitespace(c: char) {
    || '\t' <= c <= '\r'
    || c == ' '
    || c == '\U{85}'
    || c == '\U{A0}'
    || c == '\U{1680}'
    || '\U{2000}' <= c <= '\U{200A}'
    || c == '\U{2028}'
    || c == '\U{2029}'
    || c == '\U{202F}'
    || c == '\U{205F}'
    || c == '\U{3000}'
  }

  /** `parts.join(sep)`: the parts with one separator between neighbours. */
  function Join(sep: string, parts: seq<string>): string
  {
    if |parts| == 0 then ""
    else if |parts| == 1 then parts[0]
    else parts[0] + sep + Join(sep, parts[1..])
  }

  lemma {:induction false} JoinAppend(sep: string, a: seq<string>, b: seq<string>)
    requires |a| > 0 && |b| > 0
    ensures Join(sep, a + b) == Join(sep, a) + sep + Join(sep, b)
    decreases |a|
  {
    if |a| == 1 {
      assert (a + b)[1..] == b;
    } else {
      JoinAppend(sep, a[1..], b);
      assert (a + b)[1..] == a[1..] + b;
    }
  }

  /** Joining non-empty parts yields text that starts with the first part's
      first character and ends with the last part's last character. */
  lemma {:induction false} JoinEnds(sep: string, parts: seq<string>)
    requires |parts| > 0
    requires forall i :: 0 <= i < |parts| ==> |parts[i]| > 0
    ensures |Join(sep, parts)| > 0
    ensures Join(sep, parts)[0] == parts[0][0]
    ensures Join(sep, parts)[|Join(sep, parts)| - 1] == parts[|parts| - 1][|parts[|parts| - 1]| - 1]
    decreases |parts|
  {
    if |parts| > 1 {
      JoinEnds(sep, parts[1..]);
    }
  }

  /** Splits `s` at every occurrence of `c`, as Rust's `str::split(c)` does:
      the pieces never contain `c` and joining them with `c` gives `s` back. */
  function Split(s: string, c: char): (parts: seq<string>)
    ensures |parts| > 0
    ensures forall i :: 0 <= i < |parts| ==> c !in parts[i]
    ensures Join([c], parts) == s
    decreases |s|
  {
    if |s| == 0 then [""]
    else
      var rest := Split(s[1..], c);
      if s[0] == c then
        assert ([""] + rest)[1..] == rest;
        [""] + rest
      else
        var parts := [[s[0]] + rest[0]] + rest[1..];
        assert |rest| > 1 ==> Join([c], rest) == rest[0] + [c] + Join([c], rest[1..]);
        assert parts[1..] == rest[1..];
        assert [s[0]] + s[1..] == s;
        parts
  }

  lemma {:induction false} SplitWord(w: string, c: char)
    requires c !in w
    ensures Split(w, c) == [w]
    decreases |w|
  {
    if |w| > 0 {
      SplitWord(w[1..], c);
      assert [w[0]] + w[1..] == w;
    }
  }

  lemma {:induction false} SplitAfterWord(w: string, c: char, t: string)
    requires c !in w
    ensures Split(w + [c] + t, c) == [w] + Split(t, c)
    decreases |w|
  {
    if |w| == 0 {
      assert w + [c] + t == [c] + t;
      assert ([c] + t)[1..] == t;
    } else {
      var s := w + [c] + t;
      SplitAfterWord(w[1..], c, t);
      assert s[1..] == w[1..] + [c] + t;
      assert s[0] == w[0] && s[0] != c;
      var rest := Split(s[1..], c);
      assert rest[0] == w[1..] && rest[1..] == Split(t, c);
      assert [w[0]] + w[1..] == w;
      assert Split(s, c) == [[s[0]] + rest[0]] + rest[1..];
    }
  }

  /** Splitting undoes joining when no part contains the separator. */
  lemma {:induction false} SplitJoin(parts: seq<string>, c: char)
    requires |parts| > 0
    requires forall i :: 0 <= i < |parts| ==> c !in parts[i]
    ensures Split(Join([c], parts), c) == parts
    decreases |parts|
  {
    if |parts| == 1 {
      SplitWord(parts[0], c);
    } else {
      SplitJoin(parts[1..], c);
      SplitAfterWord(parts[0], c, Join([c], parts[1..]));
      assert [parts[0]] + parts[1..] == parts;
    }
  }

  /** Joining non-empty parts that are free of `c` never puts two `c` side by side. */
  lemma {:induction false} JoinNoDoubleSeparator(parts: seq<string>, c: char)
    requires forall i :: 0 <= i < |parts| ==> |parts[i]| > 0 && c !in parts[i]
    ensures forall i :: 0 <= i < |Join([c], parts)| - 1 ==>
              Join([c], parts)[i] == c ==> Join([c], parts)[i + 1] != c
    decreases |parts|
  {
    if |parts| > 1 {
      var tail := Join([c], parts[1..]);
      JoinNoDoubleSeparator(parts[1..], c);
      JoinEnds([c], parts[1..]);
      var r := Join([c], parts);
      var h := parts[0];
      assert r == h + [c] + tail;
      forall i | 0 <= i < |r| - 1 && r[i] == c
        ensures r[i + 1] != c
      {
        if i == |h| {
          assert r[i + 1] == tail[0];
        } else if i > |h| {
          assert r[i] == tail[i - |h| - 1];
          assert r[i + 1] == tail[i - |h|];
        }
      }
    }
  }

  predicate AllNonEmpty(parts: seq<string>) {
    forall i :: 0 <= i < |parts| ==> |parts[i]| > 0
  }

  /** The parts that are not empty, in their original order: the effect of
      pushing a string onto a vector only `if !s.is_empty()`. */
  function NonEmpty(parts: seq<string>): (r: seq<string>)
    ensures AllNonEmpty(r)
    ensures |r| <= |parts|
    ensures forall x :: x in r <==> x in parts && x != ""
  {
    if |parts| == 0 then []
    else (if parts[0] == "" then [] else [parts[0]]) + NonEmpty(parts[1..])
  }

  /** Each group of parts joined on its own. */
  function JoinEach(sep: string, groups: seq<seq<string>>): (r: seq<string>)
    ensures |r| == |groups|
    ensures forall i :: 0 <= i < |r| ==> r[i] == Join(sep, groups[i])
  {
    if |groups| == 0 then [] else [Join(sep, groups[0])] + JoinEach(sep, groups[1..])
  }

  function Flatten(groups: seq<seq<string>>): (r: seq<string>)
    ensures (forall i :: 0 <= i < |groups| ==> AllNonEmpty(groups[i])) ==> AllNonEmpty(r)
  {
    if |groups| == 0 then [] else groups[0] + Flatten(groups[1..])
  }

  /** Joining the non-empty joined groups is joining all their parts at once,
      provided no part is empty. */
  lemma {:induction false} JoinNested(sep: string, groups: seq<seq<string>>)
    requires forall i :: 0 <= i < |groups| ==> AllNonEmpty(groups[i])
    ensures Join(sep, NonEmpty(JoinEach(sep, groups))) == Join(sep, Flatten(groups))
    decreases |groups|
  {
    if |groups| > 0 {
      var g := groups[0];
      var rest := groups[1..];
      JoinNested(sep, rest);
      var ne := NonEmpty(JoinEach(sep, rest));
      var flat := Flatten(rest);
      assert JoinEach(sep, groups) == [Join(sep, g)] + JoinEach(sep, rest);
      assert Flatten(groups) == g + flat;
      if |g| == 0 {
        assert g + flat == flat;
        assert JoinEach(sep, groups)[0] == "";
        assert JoinEach(sep, groups)[1..] == JoinEach(sep, rest);
        assert NonEmpty(JoinEach(sep, groups)) == ne;
      } else {
        JoinEnds(sep, g);
        assert NonEmpty(JoinEach(sep, groups)) == [Join(sep, g)] + ne;
        if |flat| == 0 {
          if |ne| > 0 {
            JoinEnds(sep, ne);
          }
          assert g + flat == g;
        } else {
          JoinEnds(sep, flat);
          assert |ne| > 0;
          JoinAppend(sep, [Join(sep, g)], ne);
          JoinAppend(sep, g, flat);
        }
      }
    }
  }

  /** `trim_start`: drops leading whitespace. */
  function TrimStart(s: string): (r: string)
    ensures |r| <= |s| && r == s[|s| - |r|..]
    ensures forall i :: 0 <= i < |s| - |r| ==> IsWhitespace(s[i])
    ensures |r| > 0 ==> !IsWhitespace(r[0])
    decreases |s|
  {
    if |s| > 0 && IsWhitespace(s[0]) then TrimStart(s[1..]) else s
  }

  /** `trim_end`: drops trailing whitespace. */
  function TrimEnd(s: string): (r: string)
    ensures |r| <= |s| && r == s[..|r|]
    ensures forall i :: |r| <= i < |s| ==> IsWhitespace(s[i])
    ensures |r| > 0 ==> !IsWhitespace(r[|r| - 1])
    decreases |s|
  {
    if |s| > 0 && IsWhitespace(s[|s| - 1]) then TrimEnd(s[..|s| - 1]) else s
  }

  /** `str::trim`: the longest infix of `s` that neither starts nor ends with
      whitespace, after removing only whitespace around it. */
  function Trim(s: string): (r: string)
    ensures |r| > 0 ==> !IsWhitespace(r[0]) && !IsWhitespace(r[|r| - 1])
    ensures |r| <= |s|
    ensures (forall i :: 0 <= i < |s| ==> IsWhitespace(s[i])) <==> r == ""
    ensures |s| > 0 && !IsWhitespace(s[0]) && !IsWhitespace(s[|s| - 1]) ==> r == s
  {
    var t := TrimStart(s);
    var r := TrimEnd(t);
    assert |r| > 0 ==> r[0] == t[0];
    r
  }

  /** `trim` removes whitespace around the text and nothing else: the result
      is an infix of `s`, and everything before and after it is whitespace. */
  lemma TrimInfix(s: string) returns (a: nat, b: nat)
    ensures a <= b <= |s|
    ensures Trim(s) == s[a..b]
    ensures forall i :: 0 <= i < a ==> IsWhitespace(s[i])
    ensures forall i :: b <= i < |s| ==> IsWhitespace(s[i])
  {
    var t := TrimStart(s);
    a := |s| - |t|;
    b := a + |Trim(s)|;
    assert t == s[a..];
    forall i | b <= i < |s|
      ensures IsWhitespace(s[i])
    {
      assert s[i] == t[i - a];
    }
  }

  /** Trimming twice is trimming once. */
  lemma TrimIdempotent(s: string)
    ensures Trim(Trim(s)) == Trim(s)
  {
  }

  /** Joined words that neither start nor end with whitespace survive `trim`. */
  lemma TrimJoin(sep: string, words: seq<string>)
    requires AllNonEmpty(words)
    requires |words| > 0 ==> !IsWhitespace(words[0][0])
    requires |words| > 0 ==> !IsWhitespace(words[|words| - 1][|words[|words| - 1]| - 1])
    ensures Trim(Join(sep, words)) == Join(sep, words)
  {
    if |words| > 0 {
      JoinEnds(sep, words);
    }
  }
}
