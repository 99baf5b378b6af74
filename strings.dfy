/**
 The text operations the dashboard applies to cells and column names:
 Python's `str.strip()`, `str.replace(old, new)`, ASCII `str.lower()`,
 and decimal digit strings.
 */
module Strings {

  /** The characters Python's `str.isspace()` accepts, which `str.strip()` removes. */
  predicate IsSpace(c: char)
  {
    || c == ' '
    || '\t' <= c <= '\r'
    || '\U{1C}' <= c <= '\U{1F}'
    || c == '\U{85}' || c == '\U{A0}' || c == '\U{1680}'
    || '\U{2000}' <= c <= '\U{200A}'
    || c == '\U{2028}' || c == '\U{2029}' || c == '\U{202F}' || c == '\U{205F}' || c == '\U{3000}'
  }

  /** Number of whitespace characters at the start of `s`. */
  function LeadingSpace(s: string): (n: nat)
    ensures n <= |s|
    ensures forall k :: 0 <= k < n ==> IsSpace(s[k])
    ensures n == |s| || !IsSpace(s[n])
  {
    if s == [] || !IsSpace(s[0]) then 0 else 1 + LeadingSpace(s[1..])
  }

  /** Number of whitespace characters at the end of `s`. */
  function TrailingSpace(s: string): (n: nat)
    ensures n <= |s|
    ensures forall k :: |s| - n <= k < |s| ==> IsSpace(s[k])
    ensures n == |s| || !IsSpace(s[|s| - 1 - n])
  {
    if s == [] || !IsSpace(s[|s| - 1]) then 0 else 1 + TrailingSpace(s[..|s| - 1])
  }

  /** Python's `s.strip()`: `s` without its leading and trailing whitespace. */
  function Strip(s: string): (r: string)
    ensures r == [] || (!IsSpace(r[0]) && !IsSpace(r[|r| - 1]))
    ensures exists i, j :: 0 <= i <= j <= |s| && r == s[i..j]
                           && (forall k :: 0 <= k < i ==> IsSpace(s[k]))
                           && (forall k :: j <= k < |s| ==> IsSpace(s[k]))
  {
    var i := LeadingSpace(s);
    var t := s[i..];
    var j := |t| - TrailingSpace(t);
    assert t[..j] == s[i..i + j];
    t[..j]
  }

  /** A text that neither starts nor ends with whitespace is its own strip. */
  lemma StripUnspaced(s: string)
    requires s == [] || (!IsSpace(s[0]) && !IsSpace(s[|s| - 1]))
    ensures Strip(s) == s
  {
    if s != [] {
      assert LeadingSpace(s) == 0;
      assert TrailingSpace(s) == 0;
    }
  }

  /** Stripping twice is stripping once. */
  lemma StripIdempotent(s: string)
    ensures Strip(Strip(s)) == Strip(s)
  {
    StripUnspaced(Strip(s));
  }

  /** Whitespace in front is dropped by strip. */
  lemma StripSpacePrefix(w: string, s: string)
    requires forall k :: 0 <= k < |w| ==> IsSpace(w[k])
    requires s == [] || (!IsSpace(s[0]) && !IsSpace(s[|s| - 1]))
    ensures Strip(w + s) == s
  {
    var ws := w + s;
    LeadingOfPrefix(w, s);
    assert ws[|w|..] == s;
    assert TrailingSpace(s) == 0 by {
      if s != [] { }
    }
  }

  lemma {:induction false} LeadingOfPrefix(w: string, s: string)
    requires forall k :: 0 <= k < |w| ==> IsSpace(w[k])
    requires s == [] || !IsSpace(s[0])
    ensures LeadingSpace(w + s) == |w|
  {
    if w != [] {
      assert (w + s)[1..] == w[1..] + s;
      LeadingOfPrefix(w[1..], s);
    } else {
      assert w + s == s;
    }
  }

  /**
   Python's `s.replace(pat, rep)` for a non-empty pattern: every occurrence of
   `pat`, scanning left to right without overlaps, becomes `rep`. A
   replacement as long as the pattern keeps the length.
   */
  function Replace(s: string, pat: string, rep: string): (r: string)
    requires pat != []
    ensures |rep| == |pat| ==> |r| == |s|
    decreases |s|
  {
    if |s| < |pat| then s
    else if s[..|pat|] == pat then rep + Replace(s[|pat|..], pat, rep)
    else [s[0]] + Replace(s[1..], pat, rep)
  }

  /** Replacing one character by one character keeps the length and rewrites exactly that character. */
  lemma {:induction false} ReplaceCharByChar(s: string, c: char, d: char)
    ensures |Replace(s, [c], [d])| == |s|
    ensures forall k :: 0 <= k < |s| ==> Replace(s, [c], [d])[k] == if s[k] == c then d else s[k]
  {
    if s != [] {
      ReplaceCharByChar(s[1..], c, d);
      var r := Replace(s, [c], [d]);
      assert r == (if s[0] == c then [d] else [s[0]]) + Replace(s[1..], [c], [d]);
    }
  }

  /**
   Removing a character leaves no occurrence of it, and every other character
   as often as before.
   */
  lemma {:induction false} ReplaceCharByNothing(s: string, c: char)
    ensures c !in Replace(s, [c], [])
    ensures forall d :: d != c ==> (d in Replace(s, [c], []) <==> d in s)
    ensures multiset(Replace(s, [c], [])) == multiset(s)[c := 0]
  {
    ReplaceCharCounts(s, c);
    if s != [] {
      ReplaceCharByNothing(s[1..], c);
      var r := Replace(s, [c], []);
      assert s == [s[0]] + s[1..];
      if s[0] == c {
        assert r == Replace(s[1..], [c], []);
      } else {
        assert r == [s[0]] + Replace(s[1..], [c], []);
      }
    }
  }

  lemma {:induction false} ReplaceCharCounts(s: string, c: char)
    ensures multiset(Replace(s, [c], [])) == multiset(s)[c := 0]
  {
    if s != [] {
      ReplaceCharCounts(s[1..], c);
      var rest := Replace(s[1..], [c], []);
      assert Replace(s, [c], []) == (if s[0] == c then [] else [s[0]]) + rest by {
        assert s[..1] == [s[0]];
      }
      assert multiset(s) == multiset{s[0]} + multiset(s[1..]) by {
        assert s == [s[0]] + s[1..];
      }
      DropCount(s[0], multiset(s[1..]), c);
    }
  }

  lemma DropCount(x: char, m: multiset<char>, c: char)
    ensures (multiset{x} + m)[c := 0] == (if x == c then multiset{} else multiset{x}) + m[c := 0]
  {
  }

  /** Removing a character keeps the order of the rest: the text on each side of an occurrence stays on that side. */
  lemma ReplaceCharDeletes(x: string, y: string, c: char)
    ensures Replace(x + [c] + y, [c], []) == Replace(x, [c], []) + Replace(y, [c], [])
  {
    ReplaceCharConcat(x + [c], y, c, []);
    ReplaceCharConcat(x, [c], c, []);
    ReplaceOwn(c, []);
  }

  /** Removing a character that occurs makes the text shorter, and never longer otherwise. */
  lemma {:induction false} ReplaceShrinks(s: string, c: char)
    ensures |Replace(s, [c], [])| <= |s|
    ensures c in s ==> |Replace(s, [c], [])| < |s|
  {
    if s != [] {
      ReplaceShrinks(s[1..], c);
      assert s == [s[0]] + s[1..];
    }
  }

  /** Replacing a one-character pattern works piece by piece. */
  lemma {:induction false} ReplaceCharConcat(x: string, y: string, c: char, rep: string)
    ensures Replace(x + y, [c], rep) == Replace(x, [c], rep) + Replace(y, [c], rep)
  {
    if x != [] {
      assert (x + y)[1..] == x[1..] + y;
      assert (x + y)[..1] == x[..1];
      ReplaceCharConcat(x[1..], y, c, rep);
    } else {
      assert x + y == y;
    }
  }

  /** A string of digits holds no non-digit character. */
  lemma DigitsLack(s: string, c: char)
    requires AllDigits(s) && !IsDigit(c)
    ensures c !in s
  {
  }

  /** Replacing a one-character pattern in four consecutive pieces. */
  lemma ReplaceCharConcat4(p: string, q: string, r: string, t: string, c: char, rep: string)
    ensures Replace(p + q + r + t, [c], rep)
            == Replace(p, [c], rep) + Replace(q, [c], rep) + Replace(r, [c], rep) + Replace(t, [c], rep)
  {
    ReplaceCharConcat(p + q + r, t, c, rep);
    ReplaceCharConcat(p + q, r, c, rep);
    ReplaceCharConcat(p, q, c, rep);
  }

  /** A character occurs in four consecutive pieces exactly when it occurs in one of them. */
  lemma InConcat4(p: string, q: string, r: string, t: string, c: char)
    ensures c in p + q + r + t <==> c in p || c in q || c in r || c in t
  {
  }

  /** A one-character text that is the pattern becomes the replacement. */
  lemma ReplaceOwn(c: char, rep: string)
    ensures Replace([c], [c], rep) == rep
  {
    assert [c][..1] == [c] && [c][1..] == [];
  }

  /** A one-character text that is not the pattern is kept. */
  lemma ReplaceOther(d: char, c: char, rep: string)
    requires d != c
    ensures Replace([d], [c], rep) == [d]
  {
    assert [d][..1] != [c] && [d][1..] == [];
  }

  /** A text in which the pattern's first character never occurs is left alone. */
  lemma {:induction false} ReplaceAbsent(s: string, pat: string, rep: string)
    requires pat != [] && pat[0] !in s
    ensures Replace(s, pat, rep) == s
  {
    if |s| >= |pat| {
      assert s[..|pat|][0] == s[0];
      assert s == [s[0]] + s[1..];
      ReplaceAbsent(s[1..], pat, rep);
    }
  }

  /** A text in which the pattern's second character never occurs is left alone. */
  lemma {:induction false} ReplaceNoSecond(s: string, pat: string, rep: string)
    requires |pat| >= 2 && pat[1] !in s
    ensures Replace(s, pat, rep) == s
  {
    if |s| >= |pat| {
      assert s[..|pat|][1] == s[1];
      assert s == [s[0]] + s[1..];
      ReplaceNoSecond(s[1..], pat, rep);
    }
  }

  /**
   A two-character mark `[b, d]` whose second character `d` occurs nowhere else
   is replaced exactly when it is the pattern `[a, d]`, and the text on either
   side is kept.
   */
  lemma {:induction false} ReplaceAroundMark(x: string, y: string, a: char, b: char, d: char, rep: string)
    requires a != d && b != d && d !in x && d !in y
    ensures Replace(x + [b, d] + y, [a, d], rep) == x + (if b == a then rep else [b, d]) + y
  {
    if x == [] {
      assert x + [b, d] + y == [b, d] + y;
      ReplaceMarkFirst(y, a, b, d, rep);
    } else {
      var s := x + [b, d] + y;
      assert s[1] != d by {
        if |x| == 1 { assert s[1] == b; } else { assert s[1] == x[1]; }
      }
      assert s[..2] != [a, d] by {
        assert s[..2][1] == s[1];
      }
      assert s[1..] == x[1..] + [b, d] + y;
      ReplaceAroundMark(x[1..], y, a, b, d, rep);
    }
  }

  /** The case of `ReplaceAroundMark` where the mark opens the text. */
  lemma ReplaceMarkFirst(y: string, a: char, b: char, d: char, rep: string)
    requires a != d && b != d && d !in y
    ensures Replace([b, d] + y, [a, d], rep) == (if b == a then rep else [b, d]) + y
  {
    var s := [b, d] + y;
    assert s[..2] == [b, d] && s[2..] == y;
    ReplaceNoSecond(y, [a, d], rep);
    if b != a {
      assert s[1..] == [d] + y;
      ReplaceLoneSecond(y, a, d, rep);
    }
  }

  /** The pattern's second character alone, followed by text without it, is kept. */
  lemma ReplaceLoneSecond(y: string, a: char, d: char, rep: string)
    requires a != d && d !in y
    ensures Replace([d] + y, [a, d], rep) == [d] + y
  {
    ReplaceNoSecond(y, [a, d], rep);
    if y != [] {
      var s := [d] + y;
      assert s[..2] == [d, y[0]] && s[1..] == y;
    }
  }

  /** ASCII lower-casing of one character. */
  function LowerChar(c: char): char
  {
    if 'A' <= c <= 'Z' then (c as int + 32) as char else c
  }

  /**
   `s.lower()` restricted to the ASCII letters: the length is kept, each ASCII
   capital becomes the small letter at the same place in the alphabet, and
   every other character is kept in place.
   */
  function Lower(s: string): (r: string)
    ensures |r| == |s|
    ensures forall k :: 0 <= k < |r| ==> !('A' <= r[k] <= 'Z')
    ensures forall k :: 0 <= k < |s| && 'A' <= s[k] <= 'Z' ==>
              'a' <= r[k] <= 'z' && r[k] as int - 'a' as int == s[k] as int - 'A' as int
    ensures forall k :: 0 <= k < |s| && !('A' <= s[k] <= 'Z') ==> r[k] == s[k]
  {
    seq(|s|, k requires 0 <= k < |s| => LowerChar(s[k]))
  }

  /** A text without ASCII capitals is its own lower-case form. */
  lemma LowerUnchanged(s: string)
    requires forall k :: 0 <= k < |s| ==> !('A' <= s[k] <= 'Z')
    ensures Lower(s) == s
  {
  }

  predicate IsDigit(c: char)
  {
    '0' <= c <= '9'
  }

  predicate AllDigits(s: string)
  {
    forall k :: 0 <= k < |s| ==> IsDigit(s[k])
  }

  function DigitValue(c: char): (d: nat)
    requires IsDigit(c)
    ensures d < 10
  {
    c as int - '0' as int
  }

  function DigitChar(d: nat): (c: char)
    requires d < 10
    ensures IsDigit(c) && DigitValue(c) == d
  {
    ('0' as int + d) as char
  }

  /** The number a string of decimal digits denotes (the empty string denotes 0). */
  function DigitsValue(s: string): nat
    requires AllDigits(s)
  {
    if s == [] then 0 else DigitsValue(s[..|s| - 1]) * 10 + DigitValue(s[|s| - 1])
  }

  /** The shortest decimal spelling of `n`, as Python's `str(n)` gives it. */
  function NatToString(n: nat): (r: string)
    ensures r != [] && AllDigits(r)
  {
    if n < 10 then [DigitChar(n)] else NatToString(n / 10) + [DigitChar(n % 10)]
  }

  /** Reading back the spelling of `n` gives `n`. */
  lemma {:induction false} NatToStringValue(n: nat)
    ensures DigitsValue(NatToString(n)) == n
  {
    if n >= 10 {
      NatToStringValue(n / 10);
      var r := NatToString(n);
      assert r[..|r| - 1] == NatToString(n / 10);
    }
  }

  /** `n` written with at least two digits, as `%02d` gives it. */
  function TwoDigits(n: nat): (r: string)
    requires n < 100
    ensures |r| == 2 && AllDigits(r) && DigitsValue(r) == n
  {
    var r := [DigitChar(n / 10), DigitChar(n % 10)];
    assert r[..1] == [DigitChar(n / 10)] && r[..1][..0] == [];
    assert DigitsValue(r[..1]) == n / 10;
    r
  }
}
