/**
  The string primitives the Rust code relies on: `char::is_whitespace`,
  `str::trim`, `str::find`, `str::split`, `str::replace` with a one-character
  pattern, `starts_with` and `ends_with`. Strings are sequences of Unicode
  scalar values.
 */
module Strings {
  import opened Wrappers

  /** Rust's `char::is_whitespace`: the Unicode White_Space property. */
  predicate IsWhitespace(c: char) {
    ('\t' <= c <= '\r') || c == ' ' || c == '\U{85}' || c == '\U{A0}' || c == '\U{1680}'
    || ('\U{2000}' <= c <= '\U{200A}') || c == '\U{2028}' || c == '\U{2029}'
    || c == '\U{202F}' || c == '\U{205F}' || c == '\U{3000}'
  }

  predicate AllWhitespace(s: string) {
    forall i :: 0 <= i < |s| ==> IsWhitespace(s[i])
  }

  /** Neither the first nor the last character is whitespace. */
  predicate IsTrimmed(s: string) {
    s == [] || (!IsWhitespace(s[0]) && !IsWhitespace(s[|s| - 1]))
  }

  predicate StartsWith(s: string, prefix: string) {
    |prefix| <= |s| && s[..|prefix|] == prefix
  }

  predicate EndsWith(s: string, suffix: string) {
    |suffix| <= |s| && s[|s| - |suffix|..] == suffix
  }

  /** `str::trim_start`: drops the leading whitespace and nothing else. */
  function TrimStart(s: string): (r: string)
    ensures |r| <= |s|
    ensures r == [] || !IsWhitespace(r[0])
  {
    if s != [] && IsWhitespace(s[0]) then TrimStart(s[1..]) else s
  }

  /** `str::trim_end`: drops the trailing whitespace and nothing else. */
  function TrimEnd(s: string): (r: string)
    ensures |r| <= |s|
    ensures r == [] || !IsWhitespace(r[|r| - 1])
  {
    if s != [] && IsWhitespace(s[|s| - 1]) then TrimEnd(s[..|s| - 1]) else s
  }

  /** `TrimStart` keeps a suffix, and what it drops is whitespace. */
  lemma {:induction false} TrimStartDropsWhitespace(s: string)
    ensures TrimStart(s) == s[|s| - |TrimStart(s)|..]
    ensures AllWhitespace(s[..|s| - |TrimStart(s)|])
    decreases |s|
  {
    if s != [] && IsWhitespace(s[0]) {
      TrimStartDropsWhitespace(s[1..]);
      assert s[1..][|s| - 1 - |TrimStart(s)|..] == s[|s| - |TrimStart(s)|..];
      var k := |s| - |TrimStart(s)|;
      forall i | 0 <= i < k
        ensures IsWhitespace(s[i])
      {
        if i > 0 {
          assert s[i] == s[1..][..k - 1][i - 1];
        }
      }
    }
  }

  /** `TrimEnd` keeps a prefix, and what it drops is whitespace. */
  lemma {:induction false} TrimEndDropsWhitespace(s: string)
    ensures TrimEnd(s) == s[..|TrimEnd(s)|]
    ensures AllWhitespace(s[|TrimEnd(s)|..])
    decreases |s|
  {
    if s != [] && IsWhitespace(s[|s| - 1]) {
      TrimEndDropsWhitespace(s[..|s| - 1]);
      assert s[..|s| - 1][..|TrimEnd(s)|] == s[..|TrimEnd(s)|];
      var k := |TrimEnd(s)|;
      forall i | k <= i < |s|
        ensures IsWhitespace(s[i])
      {
        if i < |s| - 1 {
          assert s[i] == s[..|s| - 1][k..][i - k];
        }
      }
    }
  }

  /** `str::trim`. */
  function Trim(s: string): (r: string)
    ensures IsTrimmed(r)
  {
    TrimEndDropsWhitespace(TrimStart(s));
    TrimEnd(TrimStart(s))
  }

  lemma {:induction false} TrimStartOfTrimmed(s: string)
    requires s == [] || !IsWhitespace(s[0])
    ensures TrimStart(s) == s
  {
  }

  lemma {:induction false} TrimEndOfTrimmed(s: string)
    requires s == [] || !IsWhitespace(s[|s| - 1])
    ensures TrimEnd(s) == s
  {
  }

  /** Trimming changes exactly the strings that are not already trimmed. */
  lemma TrimOfTrimmed(s: string)
    ensures Trim(s) == s <==> IsTrimmed(s)
  {
    if IsTrimmed(s) {
      TrimStartOfTrimmed(s);
      TrimEndOfTrimmed(s);
    }
  }

  lemma TrimIdempotent(s: string)
    ensures Trim(Trim(s)) == Trim(s)
  {
    TrimOfTrimmed(Trim(s));
  }

  /** Whitespace at the front of `a + b` comes from `a` first. */
  lemma {:induction false} TrimStartConcat(a: string, b: string)
    ensures TrimStart(a + b) == if AllWhitespace(a) then TrimStart(b) else TrimStart(a) + b
    decreases |a|
  {
    if a == [] {
      assert a + b == b;
    } else {
      assert (a + b)[0] == a[0];
      if IsWhitespace(a[0]) {
        assert (a + b)[1..] == a[1..] + b;
        assert AllWhitespace(a) <==> AllWhitespace(a[1..]) by {
          if AllWhitespace(a[1..]) {
            forall i | 0 <= i < |a| ensures IsWhitespace(a[i]) {
              if i > 0 { assert a[i] == a[1..][i - 1]; }
            }
          }
        }
        TrimStartConcat(a[1..], b);
      } else {
        assert !AllWhitespace(a);
      }
    }
  }

  /** Whitespace at the end of `a + b` comes from `b` first. */
  lemma {:induction false} TrimEndConcat(a: string, b: string)
    ensures TrimEnd(a + b) == if AllWhitespace(b) then TrimEnd(a) else a + TrimEnd(b)
    decreases |b|
  {
    if b == [] {
      assert a + b == a;
    } else {
      assert (a + b)[|a + b| - 1] == b[|b| - 1];
      if IsWhitespace(b[|b| - 1]) {
        assert (a + b)[..|a + b| - 1] == a + b[..|b| - 1];
        TrimEndConcat(a, b[..|b| - 1]);
      }
    }
  }

  /** Trimming a string that ends in a non-whitespace character only trims its front. */
  lemma TrimBeforeSuffix(a: string, b: string)
    requires b != [] && !IsWhitespace(b[|b| - 1])
    ensures Trim(a + b) == TrimStart(a + b)
  {
    var t := TrimStart(a + b);
    assert (a + b)[|a + b| - 1] == b[|b| - 1];
    TrimStartDropsWhitespace(a + b);
    assert t[|t| - 1] == (a + b)[|a + b| - 1];
    TrimEndOfTrimmed(t);
  }

  /** Trimming a string that starts with a non-whitespace character only trims its end. */
  lemma TrimAfterPrefix(a: string, b: string)
    requires a != [] && !IsWhitespace(a[0])
    ensures Trim(a + b) == TrimEnd(a + b)
  {
    assert (a + b)[0] == a[0];
    TrimStartOfTrimmed(a + b);
  }

  /** Trailing whitespace after a part that ends in a non-whitespace character
      is all that trimming the end removes. */
  lemma {:induction false} TrimEndAfterLast(a: string, b: string)
    requires a != [] && !IsWhitespace(a[|a| - 1])
    ensures TrimEnd(a + b) == a + TrimEnd(b)
    decreases |b|
  {
    if b == [] {
      assert a + b == a;
      TrimEndOfTrimmed(a);
    } else {
      assert (a + b)[|a + b| - 1] == b[|b| - 1];
      if IsWhitespace(b[|b| - 1]) {
        assert (a + b)[..|a + b| - 1] == a + b[..|b| - 1];
        TrimEndAfterLast(a, b[..|b| - 1]);
      }
    }
  }

  /** Leading whitespace before a part that starts with a non-whitespace character
      is all that trimming the front removes. */
  lemma {:induction false} TrimStartBeforeFirst(a: string, b: string)
    requires b != [] && !IsWhitespace(b[0])
    ensures TrimStart(a + b) == TrimStart(a) + b
    decreases |a|
  {
    if a == [] {
      assert a + b == b;
      TrimStartOfTrimmed(b);
    } else {
      assert (a + b)[0] == a[0];
      if IsWhitespace(a[0]) {
        assert (a + b)[1..] == a[1..] + b;
        TrimStartBeforeFirst(a[1..], b);
      }
    }
  }

  lemma TrimOfTrimStart(s: string)
    ensures Trim(TrimStart(s)) == Trim(s)
  {
    TrimStartOfTrimmed(TrimStart(s));
  }

  /** A string of whitespace trims to nothing. */
  lemma {:induction false} TrimStartOfWhitespace(s: string)
    requires AllWhitespace(s)
    ensures TrimStart(s) == []
    decreases |s|
  {
    if s != [] {
      assert IsWhitespace(s[0]);
      assert AllWhitespace(s[1..]) by {
        forall i | 0 <= i < |s| - 1 ensures IsWhitespace(s[1..][i]) {
          assert s[1..][i] == s[i + 1];
        }
      }
      TrimStartOfWhitespace(s[1..]);
    }
  }

  /** Trimming the two ends is independent of the order. */
  lemma {:induction false} TrimStartEndCommute(s: string)
    ensures TrimStart(TrimEnd(s)) == TrimEnd(TrimStart(s))
    decreases |s|
  {
    if s != [] {
      var last := s[|s| - 1];
      var s' := s[..|s| - 1];
      assert s == s' + [last];
      if IsWhitespace(last) {
        TrimStartConcat(s', [last]);
        TrimEndConcat(TrimStart(s'), [last]);
        if AllWhitespace(s') {
          TrimStartOfWhitespace(s');
          TrimStartOfWhitespace([last]);
        }
        TrimStartEndCommute(s');
      } else {
        TrimEndOfTrimmed(s);
        TrimStartDropsWhitespace(s);
        var t := TrimStart(s);
        assert t != [] && t[|t| - 1] == last;
        TrimEndOfTrimmed(t);
      }
    }
  }

  lemma TrimOfTrimEnd(s: string)
    ensures Trim(TrimEnd(s)) == Trim(s)
  {
    TrimStartEndCommute(s);
    TrimEndOfTrimmed(TrimEnd(TrimStart(s)));
  }

  /** Trimming the end first does not change what trimming leaves as the last character. */
  lemma TrimEndKeepsLast(x: string)
    requires Trim(x) != []
    ensures TrimEnd(x) != [] && TrimEnd(x)[|TrimEnd(x)| - 1] == Trim(x)[|Trim(x)| - 1]
  {
    TrimOfTrimEnd(x);
    var t := TrimEnd(x);
    if t != [] {
      TrimKeepsLast(t);
    }
  }

  /** A non-whitespace first character survives trimming the end, and then trimming the front. */
  lemma TrimEndKeepsFirst(x: string)
    requires TrimEnd(x) != [] && !IsWhitespace(TrimEnd(x)[0])
    ensures Trim(x) != [] && Trim(x)[0] == TrimEnd(x)[0]
  {
    TrimOfTrimEnd(x);
    TrimKeepsFirst(TrimEnd(x));
  }

  /** Before a non-whitespace character, trimming the front drops only leading whitespace. */
  lemma TrimStartBeforeChar(x: string, c: char)
    requires !IsWhitespace(c)
    ensures TrimStart(x + [c]) == TrimStart(x) + [c]
  {
    TrimStartBeforeFirst(x, [c]);
  }

  lemma StartsWithHead(s: string, p: string)
    requires p != []
    ensures StartsWith(s, p) ==> s != [] && s[0] == p[0]
  {
    if StartsWith(s, p) {
      assert s[..|p|][0] == s[0];
    }
  }

  lemma EndsWithLast(s: string, p: string)
    requires p != []
    ensures EndsWith(s, p) ==> s != [] && s[|s| - 1] == p[|p| - 1]
  {
    if EndsWith(s, p) {
      assert s[|s| - |p|..][|p| - 1] == s[|s| - 1];
    }
  }

  lemma StartsWithSingle(s: string, c: char)
    ensures StartsWith(s, [c]) <==> s != [] && s[0] == c
  {
    if s != [] && s[0] == c {
      assert s[..1] == [c];
    }
  }

  lemma EndsWithSingle(s: string, c: char)
    ensures EndsWith(s, [c]) <==> s != [] && s[|s| - 1] == c
  {
    if s != [] && s[|s| - 1] == c {
      assert s[|s| - 1..] == [c];
    }
  }

  /** A prefix test on strings with known first characters moves past them. */
  lemma ConsStartsWith(c: char, t: string, d: char, q: string)
    ensures StartsWith([c] + t, [d] + q) <==> c == d && StartsWith(t, q)
  {
    var s := [c] + t;
    if |q| <= |t| {
      assert s[..|q| + 1] == [c] + t[..|q|];
      if s[..|q| + 1] == [d] + q {
        assert s[..|q| + 1][0] == c;
        assert s[..|q| + 1][1..] == t[..|q|];
      }
    }
  }

  /** `s[j..]` begins with `pat`. */
  predicate OccursAt(s: string, pat: string, j: int) {
    0 <= j && j + |pat| <= |s| && s[j..j + |pat|] == pat
  }

  /** `str::find` with a string pattern: the first position at which `pat` occurs. */
  function Find(s: string, pat: string): (r: Option<nat>)
    ensures r.Some? ==> OccursAt(s, pat, r.value) && forall j :: 0 <= j < r.value ==> !OccursAt(s, pat, j)
    ensures r.None? ==> forall j :: !OccursAt(s, pat, j)
    decreases |s|
  {
    if |s| < |pat| then None
    else if s[..|pat|] == pat then Some(0)
    else
      match Find(s[1..], pat)
      case None =>
        assert forall j :: OccursAt(s, pat, j) ==> j == 0 || OccursAt(s[1..], pat, j - 1);
        None
      case Some(i) =>
        assert forall j :: 0 < j <= i ==> (OccursAt(s, pat, j) <==> OccursAt(s[1..], pat, j - 1));
        assert OccursAt(s[1..], pat, i) ==> OccursAt(s, pat, i + 1);
        Some(i + 1)
  }

  /** `str::find` with a character pattern: the first position holding `c`. */
  function FindChar(s: string, c: char): (r: Option<nat>)
    ensures r.Some? ==> r.value < |s| && s[r.value] == c && c !in s[..r.value]
    ensures r.None? ==> c !in s
  {
    if s == [] then None
    else if s[0] == c then Some(0)
    else
      match FindChar(s[1..], c)
      case None => None
      case Some(i) =>
        assert s[..i + 1] == [s[0]] + s[1..][..i];
        Some(i + 1)
  }

  /** The first occurrence of a character the prefix does not contain is right after the prefix. */
  lemma {:induction false} FindCharAfter(p: string, c: char, rest: string)
    requires c !in p
    ensures FindChar(p + [c] + rest, c) == Some(|p|)
    decreases |p|
  {
    var s := p + [c] + rest;
    if p == [] {
      assert s[0] == c;
    } else {
      assert s[0] == p[0];
      assert s[1..] == p[1..] + [c] + rest;
      FindCharAfter(p[1..], c, rest);
    }
  }

  /** `str::split` with a character separator: always at least one piece. */
  function Split(s: string, sep: char): (r: seq<string>)
    ensures |r| >= 1
    decreases |s|
  {
    match FindChar(s, sep)
    case None => [s]
    case Some(i) => [s[..i]] + Split(s[i + 1..], sep)
  }

  /** No piece contains the separator. */
  lemma {:induction false} SplitPiecesLackSeparator(s: string, sep: char)
    ensures forall p :: p in Split(s, sep) ==> sep !in p
    decreases |s|
  {
    match FindChar(s, sep)
    case None =>
    case Some(i) =>
      SplitPiecesLackSeparator(s[i + 1..], sep);
  }

  /** Joins the pieces with the separator between them; the inverse of `Split`. */
  function Join(parts: seq<string>, sep: char): string {
    if parts == [] then []
    else if |parts| == 1 then parts[0]
    else parts[0] + [sep] + Join(parts[1..], sep)
  }

  /** Splitting loses nothing: joining the pieces again gives back the input. */
  lemma {:induction false} SplitJoin(s: string, sep: char)
    ensures Join(Split(s, sep), sep) == s
    decreases |s|
  {
    match FindChar(s, sep)
    case None =>
    case Some(i) =>
      var rest := Split(s[i + 1..], sep);
      assert Split(s, sep) == [s[..i]] + rest;
      SplitJoin(s[i + 1..], sep);
      assert s == s[..i] + [sep] + s[i + 1..];
  }

  /** Joining pieces that do not contain the separator and splitting again
      gives back the same pieces. */
  lemma {:induction false} JoinSplit(parts: seq<string>, sep: char)
    requires |parts| >= 1
    requires forall p :: p in parts ==> sep !in p
    ensures Split(Join(parts, sep), sep) == parts
  {
    if |parts| > 1 {
      var p0, rest := parts[0], Join(parts[1..], sep);
      var s := p0 + [sep] + rest;
      assert sep !in p0;
      assert s[|p0|] == sep && s[..|p0|] == p0;
      assert FindChar(s, sep) == Some(|p0|);
      assert s[|p0| + 1..] == rest;
      JoinSplit(parts[1..], sep);
    } else {
      assert sep !in parts[0];
    }
  }

  /** Trimming keeps a non-whitespace first character in front. */
  lemma TrimKeepsFirst(s: string)
    requires s != [] && !IsWhitespace(s[0])
    ensures Trim(s) != [] && Trim(s)[0] == s[0]
  {
    TrimStartOfTrimmed(s);
    TrimEndDropsWhitespace(s);
  }

  /** Trimming keeps a non-whitespace last character at the end. */
  lemma TrimKeepsLast(s: string)
    requires s != [] && !IsWhitespace(s[|s| - 1])
    ensures Trim(s) != [] && Trim(s)[|Trim(s)| - 1] == s[|s| - 1]
  {
    TrimStartDropsWhitespace(s);
    TrimEndOfTrimmed(TrimStart(s));
  }

  /** `str::replace` with a one-character pattern. */
  function ReplaceChar(s: string, c: char, rep: string): (r: string)
    ensures c !in s ==> r == s
    ensures forall x :: x in r ==> (x in s && x != c) || x in rep
  {
    if s == [] then []
    else (if s[0] == c then rep else [s[0]]) + ReplaceChar(s[1..], c, rep)
  }

  /** Replacement works character by character, so it distributes over concatenation. */
  lemma {:induction false} ReplaceCharConcat(a: string, b: string, c: char, rep: string)
    ensures ReplaceChar(a + b, c, rep) == ReplaceChar(a, c, rep) + ReplaceChar(b, c, rep)
    decreases |a|
  {
    if a == [] {
      assert a + b == b;
    } else {
      assert (a + b)[0] == a[0];
      assert (a + b)[1..] == a[1..] + b;
      ReplaceCharConcat(a[1..], b, c, rep);
    }
  }

  /** Where `Trim` starts: the length of the leading whitespace. */
  function TrimOffset(s: string): nat {
    |s| - |TrimStart(s)|
  }

  /** The trimmed string is the slice of the original that starts at the
      trim offset. */
  lemma TrimIsSlice(s: string)
    ensures TrimOffset(s) + |Trim(s)| <= |s|
    ensures Trim(s) == s[TrimOffset(s)..TrimOffset(s) + |Trim(s)|]
  {
    TrimStartDropsWhitespace(s);
    TrimEndDropsWhitespace(TrimStart(s));
  }

  /** Whitespace around a trimmed, non-empty string is all that trimming removes. */
  lemma TrimPadded(pre: string, x: string, post: string)
    requires AllWhitespace(pre) && AllWhitespace(post) && x != [] && IsTrimmed(x)
    ensures Trim(pre + x + post) == x
  {
    assert pre + x + post == pre + (x + post);
    assert (x + post)[0] == x[0];
    TrimStartBeforeFirst(pre, x + post);
    TrimStartOfWhitespace(pre);
    assert TrimStart(pre + x + post) == x + post;
    TrimEndConcat(x, post);
    TrimEndOfTrimmed(x);
  }

  /** `str::contains` with a string pattern. */
  predicate Contains(s: string, pat: string) {
    Find(s, pat).Some?
  }

  /** An occurrence inside a slice is an occurrence in the whole string. */
  lemma OccursInSlice(s: string, pat: string, a: nat, b: nat, j: nat)
    requires a <= b <= |s| && OccursAt(s[a..b], pat, j)
    ensures OccursAt(s, pat, a + j)
  {
    var t := s[a..b];
    forall k | 0 <= k < |pat|
      ensures s[a + j + k] == pat[k]
    {
      assert t[j..j + |pat|][k] == t[j + k] == s[a + j + k];
    }
    assert s[a + j..a + j + |pat|] == pat;
  }

  /** `Find` gives the first occurrence: an occurrence with none before it
      is what it finds. */
  lemma FindFirst(s: string, pat: string, k: nat)
    requires OccursAt(s, pat, k)
    requires forall j :: 0 <= j < k ==> !OccursAt(s, pat, j)
    ensures Find(s, pat) == Some(k)
  {
  }

  /** A string without the pattern's first character does not contain it. */
  lemma LacksFirstChar(s: string, pat: string)
    requires pat != [] && pat[0] !in s
    ensures !Contains(s, pat)
  {
  }

  /** Replacing a non-whitespace character by another one does not change
      what `TrimStart` removes. */
  lemma {:induction false} TrimStartReplace(s: string, c: char, d: char)
    requires !IsWhitespace(c) && !IsWhitespace(d)
    ensures TrimStart(ReplaceChar(s, c, [d])) == ReplaceChar(TrimStart(s), c, [d])
    decreases |s|
  {
    if s != [] {
      var r := ReplaceChar(s, c, [d]);
      assert r == (if s[0] == c then [d] else [s[0]]) + ReplaceChar(s[1..], c, [d]);
      assert r[0] == (if s[0] == c then d else s[0]);
      assert r[1..] == ReplaceChar(s[1..], c, [d]);
      if IsWhitespace(s[0]) {
        TrimStartReplace(s[1..], c, d);
      } else {
        TrimStartOfTrimmed(r);
        TrimStartOfTrimmed(s);
      }
    }
  }

  /** Replacing a non-whitespace character by another one does not change
      what `TrimEnd` removes. */
  lemma {:induction false} TrimEndReplace(s: string, c: char, d: char)
    requires !IsWhitespace(c) && !IsWhitespace(d)
    ensures TrimEnd(ReplaceChar(s, c, [d])) == ReplaceChar(TrimEnd(s), c, [d])
    decreases |s|
  {
    if s != [] {
      var init, last := s[..|s| - 1], s[|s| - 1];
      assert s == init + [last];
      ReplaceCharConcat(init, [last], c, [d]);
      var tail := ReplaceChar([last], c, [d]);
      assert tail == (if last == c then [d] else [last]) + ReplaceChar([last][1..], c, [d]);
      assert [last][1..] == [];
      var r := ReplaceChar(s, c, [d]);
      assert r == ReplaceChar(init, c, [d]) + tail;
      assert r[|r| - 1] == (if last == c then d else last);
      assert r[..|r| - 1] == ReplaceChar(init, c, [d]);
      if IsWhitespace(last) {
        TrimEndReplace(init, c, d);
      } else {
        TrimEndOfTrimmed(r);
        TrimEndOfTrimmed(s);
      }
    }
  }

  /** So trimming commutes with such a replacement. */
  lemma TrimReplace(s: string, c: char, d: char)
    requires !IsWhitespace(c) && !IsWhitespace(d)
    ensures Trim(ReplaceChar(s, c, [d])) == ReplaceChar(Trim(s), c, [d])
  {
    TrimStartReplace(s, c, d);
    TrimEndReplace(TrimStart(s), c, d);
  }
}
