/** Text helpers shared by the model: decimal numerals, substring search,
    JavaScript-style whitespace trimming and the splitting and joining used by
    `String.prototype.split` and `Array.prototype.join`. */
module Strings {

  // ---------------------------------------------------------------- numerals

  predicate IsDigit(c: char) { '0' <= c <= '9' }

  predicate AllDigits(s: string) { forall i :: 0 <= i < |s| ==> IsDigit(s[i]) }

  /** A canonical decimal numeral: digits only, no leading zero except "0" itself. */
  predicate IsNumeral(s: string) { |s| > 0 && AllDigits(s) && (s[0] == '0' ==> |s| == 1) }

  function DigitChar(d: nat): (c: char)
    requires d < 10
    ensures IsDigit(c) && c as int - '0' as int == d
  {
    (('0' as int) + d) as char
  }

  function NatToString(n: nat): (s: string)
    ensures |s| > 0 && AllDigits(s)
    decreases n
  {
    if n < 10 then [DigitChar(n)] else NatToString(n / 10) + [DigitChar(n % 10)]
  }

  function DigitsValue(s: string): nat
    requires AllDigits(s)
    decreases |s|
  {
    if s == [] then 0
    else DigitsValue(s[..|s| - 1]) * 10 + (s[|s| - 1] as int - '0' as int)
  }

  lemma {:induction false} NatToStringIsNumeral(n: nat)
    ensures IsNumeral(NatToString(n))
    ensures DigitsValue(NatToString(n)) == n
    decreases n
  {
    if n >= 10 {
      NatToStringIsNumeral(n / 10);
      var s := NatToString(n);
      assert s[..|s| - 1] == NatToString(n / 10);
    }
  }

  lemma {:induction false} NumeralIsNatToString(s: string)
    requires IsNumeral(s)
    ensures NatToString(DigitsValue(s)) == s
    decreases |s|
  {
    if |s| > 1 {
      var init := s[..|s| - 1];
      assert IsNumeral(init);
      NumeralIsNatToString(init);
      LeadingDigitPositive(init);
    }
  }

  /** A numeral of two or more digits denotes at least 10. */
  lemma {:induction false} LeadingDigitPositive(s: string)
    requires IsNumeral(s) && s[0] != '0'
    ensures DigitsValue(s) >= 1
    decreases |s|
  {
    if |s| > 1 {
      var init := s[..|s| - 1];
      assert IsNumeral(init) && init[0] == s[0];
      LeadingDigitPositive(init);
    }
  }

  lemma NatToStringInjective(m: nat, n: nat)
    requires NatToString(m) == NatToString(n)
    ensures m == n
  {
    NatToStringIsNumeral(m);
    NatToStringIsNumeral(n);
  }

  // ---------------------------------------------------------------- substrings

  /** `s.includes(sub)`: `sub` occurs somewhere in `s`. */
  predicate Contains(s: string, sub: string)
    decreases |s|
  {
    sub <= s || (|s| > 0 && Contains(s[1..], sub))
  }

  lemma {:induction false} ContainsInside(pre: string, sub: string, post: string)
    ensures Contains(pre + sub + post, sub)
    decreases |pre|
  {
    if |pre| > 0 {
      ContainsInside(pre[1..], sub, post);
      assert (pre + sub + post)[1..] == pre[1..] + sub + post;
    } else {
      assert pre + sub + post == sub + post;
    }
  }

  /** Position of the first occurrence of `a` in `s`. */
  function IndexOf(s: string, a: char): (i: nat)
    requires a in s
    ensures i < |s| && s[i] == a && a !in s[..i]
    decreases |s|
  {
    if s[0] == a then 0
    else
      var j := IndexOf(s[1..], a);
      assert s[..j + 1] == [s[0]] + s[1..][..j];
      j + 1
  }

  /** Replaces the first occurrence of the character `a` by `b`, as `s.replace("a", "b")`. */
  function ReplaceFirstChar(s: string, a: char, b: char): string
  {
    if a in s then s[..IndexOf(s, a)] + [b] + s[IndexOf(s, a) + 1..] else s
  }

  /** Rust's `s.trim_end_matches(c)`: drops every trailing `c`. */
  function TrimEndChar(s: string, c: char): (r: string)
    ensures |r| <= |s| && r == s[..|r|]
    ensures forall i :: |r| <= i < |s| ==> s[i] == c
    ensures r == [] || r[|r| - 1] != c
    decreases |s|
  {
    if s != [] && s[|s| - 1] == c then TrimEndChar(s[..|s| - 1], c) else s
  }

  // ---------------------------------------------------------------- whitespace

  /** The characters JavaScript's `trim` and `\s` treat as white space
      (line terminators, the Unicode space separators and the byte order mark). */
  predicate IsSpace(c: char)
  {
    || c == ' ' || '\t' <= c <= '\r' || c == '\U{00A0}' || c == '\U{1680}'
    || '\U{2000}' <= c <= '\U{200A}' || c == '\U{2028}' || c == '\U{2029}' || c == '\U{202F}'
    || c == '\U{205F}' || c == '\U{3000}' || c == '\U{FEFF}'
  }

  predicate AllSpace(s: string) { forall i :: 0 <= i < |s| ==> IsSpace(s[i]) }

  function TrimStart(s: string): (r: string)
    ensures |r| <= |s| && r == s[|s| - |r|..]
    ensures r == [] || !IsSpace(r[0])
    decreases |s|
  {
    if s != [] && IsSpace(s[0]) then TrimStart(s[1..]) else s
  }

  function TrimEnd(s: string): (r: string)
    ensures |r| <= |s| && r == s[..|r|]
    ensures r == [] || !IsSpace(r[|r| - 1])
    decreases |s|
  {
    if s != [] && IsSpace(s[|s| - 1]) then TrimEnd(s[..|s| - 1]) else s
  }

  /** What `TrimStart` drops is white space. */
  lemma {:induction false} TrimStartDropsSpace(s: string)
    ensures AllSpace(s[..|s| - |TrimStart(s)|])
    decreases |s|
  {
    if s != [] && IsSpace(s[0]) {
      var rest := s[1..];
      TrimStartDropsSpace(rest);
      var k := |rest| - |TrimStart(rest)|;
      assert s[..k + 1] == [s[0]] + rest[..k];
    }
  }

  /** What `TrimEnd` drops is white space. */
  lemma {:induction false} TrimEndDropsSpace(s: string)
    ensures AllSpace(s[|TrimEnd(s)|..])
    decreases |s|
  {
    if s != [] && IsSpace(s[|s| - 1]) {
      var front := s[..|s| - 1];
      TrimEndDropsSpace(front);
      var k := |TrimEnd(front)|;
      assert s[k..] == front[k..] + [s[|s| - 1]];
    }
  }

  /** `String.prototype.trim`. */
  function Trim(s: string): (r: string)
    ensures r == [] || (!IsSpace(r[0]) && !IsSpace(r[|r| - 1]))
  {
    TrimEnd(TrimStart(s))
  }

  /** Trimming removes white space from both ends and nothing else. */
  lemma TrimIsSlice(s: string)
    ensures exists i, j :: 0 <= i <= j <= |s| && Trim(s) == s[i..j] && AllSpace(s[..i]) && AllSpace(s[j..])
  {
    var t := TrimStart(s);
    var r := TrimEnd(t);
    var i := |s| - |t|;
    TrimStartDropsSpace(s);
    TrimEndDropsSpace(t);
    assert r == s[i..i + |r|];
    assert s[i + |r|..] == t[|r|..];
  }

  lemma TrimNoSpace(s: string)
    requires s == [] || (!IsSpace(s[0]) && !IsSpace(s[|s| - 1]))
    ensures Trim(s) == s
  {
  }

  // ---------------------------------------------------------------- splitting and joining

  /** `s.split(sep)` for a one-character separator. */
  function Split(s: string, sep: char): (r: seq<string>)
    ensures |r| > 0
    ensures forall i :: 0 <= i < |r| ==> sep !in r[i]
    decreases |s|
  {
    if s == [] then [""]
    else
      var rest := Split(s[1..], sep);
      if s[0] == sep then [""] + rest else [[s[0]] + rest[0]] + rest[1..]
  }

  /** `parts.join(sep)`. */
  function Join(parts: seq<string>, sep: string): string
    decreases |parts|
  {
    if parts == [] then ""
    else if |parts| == 1 then parts[0]
    else parts[0] + sep + Join(parts[1..], sep)
  }

  lemma {:induction false} JoinSplit(s: string, sep: char)
    ensures Join(Split(s, sep), [sep]) == s
    decreases |s|
  {
    if s != [] {
      JoinSplit(s[1..], sep);
      var rest := Split(s[1..], sep);
      if s[0] != sep {
        if |rest| > 1 {
          assert ([[s[0]] + rest[0]] + rest[1..])[1..] == rest[1..];
        }
      }
    }
  }

  lemma {:induction false} SplitJoin(parts: seq<string>, sep: char)
    requires |parts| > 0
    requires forall i :: 0 <= i < |parts| ==> sep !in parts[i]
    ensures Split(Join(parts, [sep]), sep) == parts
    decreases |parts|
  {
    if |parts| == 1 {
      SplitNoSep(parts[0], sep);
    } else {
      SplitJoin(parts[1..], sep);
      SplitPrefix(parts[0], Join(parts[1..], [sep]), sep);
      assert [parts[0]] + parts[1..] == parts;
    }
  }

  lemma {:induction false} SplitNoSep(s: string, sep: char)
    requires sep !in s
    ensures Split(s, sep) == [s]
    decreases |s|
  {
    if s != [] {
      SplitNoSep(s[1..], sep);
      assert [s[0]] + s[1..] == s;
    }
  }

  lemma {:induction false} SplitPrefix(a: string, b: string, sep: char)
    requires sep !in a
    ensures Split(a + [sep] + b, sep) == [a] + Split(b, sep)
    decreases |a|
  {
    if a == [] {
      assert a + [sep] + b == [sep] + b;
      assert ([sep] + b)[1..] == b;
    } else {
      SplitPrefix(a[1..], b, sep);
      assert (a + [sep] + b)[1..] == a[1..] + [sep] + b;
      assert [a[0]] + a[1..] == a;
    }
  }

  /** `s.split(/\s+/u)`: the pieces between maximal runs of white space. */
  function SplitSpaces(s: string): (r: seq<string>)
    ensures |r| > 0
    decreases |s|
  {
    if s == [] then [""]
    else
      var rest := SplitSpaces(s[1..]);
      if IsSpace(s[0]) then
        (if |s| > 1 && IsSpace(s[1]) then rest else [""] + rest)
      else [[s[0]] + rest[0]] + rest[1..]
  }
  /** `ys` is `xs` with some elements left out, the rest in the same order. */
  predicate Subsequence(ys: seq<string>, xs: seq<string>)
    decreases |xs|
  {
    if xs == [] then ys == []
    else (ys != [] && ys[0] == xs[0] && Subsequence(ys[1..], xs[1..])) || Subsequence(ys, xs[1..])
  }

  /** Extending both lists by one element keeps the relation, and so does extending only
      the longer one. */
  lemma {:induction false} SubsequenceSnoc(ys: seq<string>, xs: seq<string>, y: string)
    requires Subsequence(ys, xs)
    ensures Subsequence(ys + [y], xs + [y]) && Subsequence(ys, xs + [y])
    decreases |xs|
  {
    if xs == [] {
      assert ([y] + [])[1..] == [];
    } else {
      assert (xs + [y])[1..] == xs[1..] + [y];
      if ys != [] && ys[0] == xs[0] && Subsequence(ys[1..], xs[1..]) {
        SubsequenceSnoc(ys[1..], xs[1..], y);
        assert (ys + [y])[1..] == ys[1..] + [y];
      } else {
        SubsequenceSnoc(ys, xs[1..], y);
      }
    }
  }
}
