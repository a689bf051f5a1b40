/** The JavaScript string built-ins the core relies on: `trim`, `toLowerCase`,
    `includes`, `split`/`join` on one separator, `substring(0, n)`, number-to-string,
    string-to-number for decimal integers, and the filename sanitiser
    `replace(/[^a-z0-9]/gi, '_')`.  A string is a sequence of Unicode scalar values. */
module Text {
  import opened Wrappers

  // ---------------------------------------------------------------- trim

  /** ECMAScript WhiteSpace and LineTerminator code points: what `trim` removes. */
  predicate IsWhitespace(c: char) {
    c == ' ' || c == '\t' || c == '\n' || c == '\r' || c == '\U{000B}' || c == '\U{000C}'
    || c == '\U{00A0}' || c == '\U{1680}' || ('\U{2000}' <= c <= '\U{200A}')
    || c == '\U{2028}' || c == '\U{2029}' || c == '\U{202F}' || c == '\U{205F}'
    || c == '\U{3000}' || c == '\U{FEFF}'
  }

  predicate AllWhitespace(s: string) {
    forall k :: 0 <= k < |s| ==> IsWhitespace(s[k])
  }

  /** The leading whitespace removed. */
  function TrimStart(s: string): string
    decreases |s|
  {
    if s != [] && IsWhitespace(s[0]) then TrimStart(s[1..]) else s
  }

  /** The trailing whitespace removed. */
  function TrimEnd(s: string): string
    decreases |s|
  {
    if s != [] && IsWhitespace(s[|s| - 1]) then TrimEnd(s[..|s| - 1]) else s
  }

  /** `TrimStart` drops a whitespace prefix and stops at the first other character. */
  lemma {:induction false} TrimStartFacts(s: string)
    ensures |TrimStart(s)| <= |s| && TrimStart(s) == s[|s| - |TrimStart(s)|..]
    ensures AllWhitespace(s[..|s| - |TrimStart(s)|])
    ensures TrimStart(s) != [] ==> !IsWhitespace(TrimStart(s)[0])
    decreases |s|
  {
    if s != [] && IsWhitespace(s[0]) {
      TrimStartFacts(s[1..]);
      var r := TrimStart(s[1..]);
      var n := |s| - |r|;
      assert s[1..][n - 1..] == s[n..];
      assert AllWhitespace(s[..n]) by {
        var w := s[1..][..n - 1];
        assert AllWhitespace(w);
        forall k | 0 <= k < n ensures IsWhitespace(s[..n][k]) {
          if k == 0 {
            assert s[..n][0] == s[0];
          } else {
            assert s[..n][k] == w[k - 1];
          }
        }
      }
    } else {
      assert s[..0] == [];
    }
  }

  /** `TrimEnd` drops a whitespace suffix and stops at the last other character. */
  lemma {:induction false} TrimEndFacts(s: string)
    ensures |TrimEnd(s)| <= |s| && TrimEnd(s) == s[..|TrimEnd(s)|]
    ensures AllWhitespace(s[|TrimEnd(s)|..])
    ensures TrimEnd(s) != [] ==> !IsWhitespace(TrimEnd(s)[|TrimEnd(s)| - 1])
    decreases |s|
  {
    if s != [] && IsWhitespace(s[|s| - 1]) {
      var p := s[..|s| - 1];
      TrimEndFacts(p);
      var r := TrimEnd(p);
      assert p[..|r|] == s[..|r|];
      assert AllWhitespace(s[|r|..]) by {
        forall k | 0 <= k < |s| - |r| ensures IsWhitespace(s[|r|..][k]) {
          if k < |s| - |r| - 1 {
            assert s[|r|..][k] == p[|r|..][k];
          }
        }
      }
    } else {
      assert s[|s|..] == [];
    }
  }

  /** `s.trim()`: what is left of `s` once whitespace is cut from both ends; it
      starts and ends with a non-whitespace character, and it is empty exactly
      when `s` is all whitespace. */
  function Trim(s: string): (r: string)
    ensures Contains(s, r)
    ensures exists i :: TrimmedAt(s, r, i)
    ensures r != [] ==> !IsWhitespace(r[0]) && !IsWhitespace(r[|r| - 1])
    ensures r == [] <==> AllWhitespace(s)
  {
    TrimCutsWhitespace(s);
    TrimIsInfix(s);
    TrimEmptyIff(s);
    TrimKeepsEnds(s);
    TrimEnd(TrimStart(s))
  }

  /** `r` is the part of `s` starting at `i`, and everything of `s` before and
      after it is whitespace. */
  predicate TrimmedAt(s: string, r: string, i: int) {
    && 0 <= i <= |s| - |r|
    && (forall k {:trigger r[k]} :: 0 <= k < |r| ==> r[k] == s[i + k])
    && (forall k :: 0 <= k < i ==> IsWhitespace(s[k]))
    && (forall k :: i + |r| <= k < |s| ==> IsWhitespace(s[k]))
  }

  lemma {:induction false} TrimStartShorter(s: string)
    ensures |TrimStart(s)| <= |s|
    decreases |s|
  {
    if s != [] && IsWhitespace(s[0]) {
      TrimStartShorter(s[1..]);
    }
  }

  lemma {:induction false} TrimEndShorter(s: string)
    ensures |TrimEnd(s)| <= |s|
    decreases |s|
  {
    if s != [] && IsWhitespace(s[|s| - 1]) {
      TrimEndShorter(s[..|s| - 1]);
    }
  }

  /** Character `k` of `TrimStart(s)` is character `k` of the suffix of `s` it keeps. */
  lemma {:induction false} TrimStartAt(s: string, k: int)
    requires 0 <= k < |TrimStart(s)|
    ensures |TrimStart(s)| <= |s| && TrimStart(s)[k] == s[|s| - |TrimStart(s)| + k]
    decreases |s|
  {
    TrimStartShorter(s);
    if s != [] && IsWhitespace(s[0]) {
      TrimStartAt(s[1..], k);
    }
  }

  /** What `TrimStart` drops is whitespace. */
  lemma {:induction false} TrimStartDrops(s: string, k: int)
    requires 0 <= k < |s| - |TrimStart(s)|
    ensures IsWhitespace(s[k])
    decreases |s|
  {
    if k > 0 {
      TrimStartDrops(s[1..], k - 1);
    }
  }

  /** Character `k` of `TrimEnd(s)` is character `k` of `s`. */
  lemma {:induction false} TrimEndAt(s: string, k: int)
    requires 0 <= k < |TrimEnd(s)|
    ensures |TrimEnd(s)| <= |s| && TrimEnd(s)[k] == s[k]
    decreases |s|
  {
    TrimEndShorter(s);
    if s != [] && IsWhitespace(s[|s| - 1]) {
      TrimEndAt(s[..|s| - 1], k);
    }
  }

  /** What `TrimEnd` drops is whitespace. */
  lemma {:induction false} TrimEndDrops(s: string, k: int)
    requires |TrimEnd(s)| <= k < |s|
    ensures IsWhitespace(s[k])
    decreases |s|
  {
    if k < |s| - 1 {
      TrimEndDrops(s[..|s| - 1], k);
    }
  }

  /** The characters `Trim` cuts off on either side are whitespace. */
  lemma TrimCutsWhitespace(s: string)
    ensures var r := TrimEnd(TrimStart(s));
      exists i :: TrimmedAt(s, r, i)
  {
    var a := TrimStart(s);
    var r := TrimEnd(a);
    var i := |s| - |a|;
    TrimStartShorter(s);
    TrimEndShorter(a);
    forall k | 0 <= k < |r| ensures r[k] == s[i + k] {
      TrimEndAt(a, k);
      TrimStartAt(s, k);
    }
    forall k | 0 <= k < i ensures IsWhitespace(s[k]) {
      TrimStartDrops(s, k);
    }
    forall k | i + |r| <= k < |s| ensures IsWhitespace(s[k]) {
      TrimEndDrops(a, k - i);
      TrimStartAt(s, k - i);
    }
    assert TrimmedAt(s, r, i);
  }

  lemma TrimIsInfix(s: string)
    ensures Contains(s, TrimEnd(TrimStart(s)))
  {
    TrimStartFacts(s);
    TrimEndFacts(TrimStart(s));
    var a := TrimStart(s);
    var b := TrimEnd(a);
    var i := |s| - |a|;
    assert b == s[i..i + |b|];
    ContainsAt(s, b, i);
  }

  /** The trimmed string starts and ends with a non-whitespace character. */
  lemma TrimKeepsEnds(s: string)
    ensures var r := TrimEnd(TrimStart(s));
      r != [] ==> !IsWhitespace(r[0]) && !IsWhitespace(r[|r| - 1])
  {
    TrimStartFacts(s);
    TrimEndFacts(TrimStart(s));
    var a := TrimStart(s);
    var b := TrimEnd(a);
    if b != [] {
      assert b[0] == a[0];
    }
  }

  lemma TrimEmptyIff(s: string)
    ensures TrimEnd(TrimStart(s)) == [] <==> AllWhitespace(s)
  {
    TrimStartFacts(s);
    TrimEndFacts(TrimStart(s));
    var a := TrimStart(s);
    var b := TrimEnd(a);
    var i := |s| - |a|;
    if b == [] {
      assert a == [] by {
        assert AllWhitespace(a[0..]);
      }
      assert s[..i] == s;
    } else {
      assert b[0] == a[0] == s[i];
    }
  }

  lemma TrimIdempotent(s: string)
    ensures Trim(Trim(s)) == Trim(s)
  {
    var t := Trim(s);
    if t != [] {
      assert TrimStart(t) == t;
      assert TrimEnd(t) == t;
    }
  }

  // ---------------------------------------------------------------- toLowerCase

  /** Lower-case mapping of the ASCII and Latin-1 capital letters. */
  function LowerChar(c: char): char {
    if 'A' <= c <= 'Z' then (c as int + 32) as char
    else if '\U{00C0}' <= c <= '\U{00DE}' && c != '\U{00D7}' then (c as int + 32) as char
    else c
  }

  function Lower(s: string): (r: string)
    ensures |r| == |s|
    ensures forall k :: 0 <= k < |s| ==> r[k] == LowerChar(s[k])
  {
    seq(|s|, k requires 0 <= k < |s| => LowerChar(s[k]))
  }

  /** Lower-casing twice is lower-casing once, and it never turns a character into
      whitespace or whitespace into something else. */
  lemma LowerIdempotent(s: string)
    ensures Lower(Lower(s)) == Lower(s)
    ensures forall k :: 0 <= k < |s| ==> (IsWhitespace(Lower(s)[k]) <==> IsWhitespace(s[k]))
  {
  }

  // ---------------------------------------------------------------- includes

  /** `hay.includes(needle)`. */
  predicate Contains(hay: string, needle: string)
    decreases |hay|
  {
    needle <= hay || (hay != [] && Contains(hay[1..], needle))
  }

  lemma {:induction false} ContainsAt(hay: string, needle: string, i: nat)
    requires i + |needle| <= |hay| && hay[i..i + |needle|] == needle
    ensures Contains(hay, needle)
    decreases i
  {
    if i > 0 {
      assert hay[1..][i - 1..i - 1 + |needle|] == hay[i..i + |needle|];
      ContainsAt(hay[1..], needle, i - 1);
    }
  }

  lemma {:induction false} ContainsWitness(hay: string, needle: string) returns (i: nat)
    requires Contains(hay, needle)
    ensures i + |needle| <= |hay| && hay[i..i + |needle|] == needle
    decreases |hay|
  {
    if needle <= hay {
      i := 0;
    } else {
      var j := ContainsWitness(hay[1..], needle);
      i := j + 1;
      assert hay[1..][j..j + |needle|] == hay[i..i + |needle|];
    }
  }

  // ---------------------------------------------------------------- split / join

  /** `s.split(d)` for a one-character separator `d`. */
  function Split(s: string, d: char): (r: seq<string>)
    ensures |r| >= 1
    ensures forall k :: 0 <= k < |r| ==> d !in r[k]
  {
    if s == [] then [[]]
    else if s[0] == d then [[]] + Split(s[1..], d)
    else
      var t := Split(s[1..], d);
      [[s[0]] + t[0]] + t[1..]
  }

  /** `ts.join(sep)`; the empty array joins to the empty string. */
  function Join(ts: seq<string>, sep: string): string {
    if ts == [] then []
    else if |ts| == 1 then ts[0]
    else ts[0] + sep + Join(ts[1..], sep)
  }

  /** Joining the pieces of a split gives back the original string. */
  lemma {:induction false} JoinSplit(s: string, d: char)
    ensures Join(Split(s, d), [d]) == s
    decreases |s|
  {
    if s == [] {
    } else if s[0] == d {
      JoinSplit(s[1..], d);
      assert s == [d] + s[1..];
    } else {
      var t := Split(s[1..], d);
      JoinSplit(s[1..], d);
      var r := [[s[0]] + t[0]] + t[1..];
      if |t| == 1 {
        assert s == [s[0]] + s[1..];
      } else {
        assert r[1..] == t[1..];
        assert Join(r, [d]) == [s[0]] + t[0] + [d] + Join(t[1..], [d]);
        assert Join(t, [d]) == t[0] + [d] + Join(t[1..], [d]);
        assert s == [s[0]] + s[1..];
      }
    }
  }

  /** Splitting pieces that do not contain the separator after joining them gives
      the pieces back. */
  lemma {:induction false} SplitJoin(ts: seq<string>, d: char)
    requires |ts| >= 1
    requires forall k :: 0 <= k < |ts| ==> d !in ts[k]
    ensures Split(Join(ts, [d]), d) == ts
    decreases |ts|
  {
    if |ts| == 1 {
      SplitNoSeparator(ts[0], d);
    } else {
      SplitJoin(ts[1..], d);
      SplitPrefix(ts[0], Join(ts[1..], [d]), d);
      assert [ts[0]] + ts[1..] == ts;
    }
  }

  lemma {:induction false} SplitNoSeparator(s: string, d: char)
    requires d !in s
    ensures Split(s, d) == [s]
    decreases |s|
  {
    if s != [] {
      SplitNoSeparator(s[1..], d);
      assert s == [s[0]] + s[1..];
    }
  }

  /** A separator-free head becomes the first piece; the rest splits on its own. */
  lemma {:induction false} SplitPrefix(a: string, b: string, d: char)
    requires d !in a
    ensures Split(a + [d] + b, d) == [a] + Split(b, d)
    decreases |a|
  {
    if a == [] {
      assert a + [d] + b == [d] + b;
      assert ([d] + b)[1..] == b;
    } else {
      assert (a + [d] + b)[1..] == a[1..] + [d] + b;
      SplitPrefix(a[1..], b, d);
      assert a == [a[0]] + a[1..];
    }
  }

  // ---------------------------------------------------------------- substring

  /** `s.substring(0, n)` for `n >= 0`. */
  function Take(s: string, n: nat): (r: string)
    ensures |r| == if |s| <= n then |s| else n
    ensures r <= s
  {
    if |s| <= n then s else s[..n]
  }

  // ---------------------------------------------------------------- numbers

  predicate IsDigit(c: char) { '0' <= c <= '9' }

  function DigitChar(d: nat): char
    requires d < 10
  {
    ('0' as int + d) as char
  }

  function DigitValue(c: char): nat
    requires IsDigit(c)
  {
    c as int - '0' as int
  }

  /** `String(n)` for a non-negative integer: shortest decimal form. */
  function NatToString(n: nat): (r: string)
    ensures |r| >= 1
    ensures forall k :: 0 <= k < |r| ==> IsDigit(r[k])
    ensures |r| > 1 ==> r[0] != '0'
  {
    if n < 10 then [DigitChar(n)] else NatToString(n / 10) + [DigitChar(n % 10)]
  }

  /** `String(i)` for an integer. */
  function IntToString(i: int): (r: string)
    ensures r != [] && (r[0] == '-' <==> i < 0)
  {
    if i < 0 then "-" + NatToString(-i) else NatToString(i)
  }

  /** Value of a non-empty string of decimal digits. */
  function DigitsValue(s: string): nat
    requires forall k :: 0 <= k < |s| ==> IsDigit(s[k])
  {
    if s == [] then 0 else 10 * DigitsValue(s[..|s| - 1]) + DigitValue(s[|s| - 1])
  }

  /** JavaScript `Number(s)` restricted to unsigned decimal integers: surrounding
      whitespace is ignored, the empty string is 0, anything else is NaN (`None`). */
  function StringToNumber(s: string): (r: Option<int>)
    ensures AllWhitespace(s) ==> r == Some(0)
    ensures r.Some? ==> r.value >= 0
  {
    var t := Trim(s);
    if t == [] then Some(0)
    else if forall k :: 0 <= k < |t| ==> IsDigit(t[k]) then Some(DigitsValue(t))
    else None
  }

  lemma {:induction false} DigitsOfNatToString(n: nat)
    ensures DigitsValue(NatToString(n)) == n
    decreases n
  {
    if n >= 10 {
      DigitsOfNatToString(n / 10);
      var r := NatToString(n);
      assert r[..|r| - 1] == NatToString(n / 10);
    }
  }

  /** Rendering a number as an option value and comparing with `==` finds it again. */
  lemma NumberRoundTrip(n: nat)
    ensures StringToNumber(NatToString(n)) == Some(n)
  {
    var r := NatToString(n);
    assert TrimStart(r) == r;
    assert TrimEnd(r) == r;
    DigitsOfNatToString(n);
  }

  // ---------------------------------------------------------------- filename

  predicate IsAsciiAlnum(c: char) {
    ('a' <= c <= 'z') || ('A' <= c <= 'Z') || IsDigit(c)
  }

  /** `s.replace(/[^a-z0-9]/gi, '_')`. */
  function Sanitize(s: string): (r: string)
    ensures |r| == |s|
    ensures forall k :: 0 <= k < |s| ==> (IsAsciiAlnum(s[k]) ==> r[k] == s[k])
    ensures forall k :: 0 <= k < |s| ==> (!IsAsciiAlnum(s[k]) ==> r[k] == '_')
    ensures forall k :: 0 <= k < |r| ==> IsAsciiAlnum(r[k]) || r[k] == '_'
  {
    seq(|s|, k requires 0 <= k < |s| => if IsAsciiAlnum(s[k]) then s[k] else '_')
  }

  /** A sanitised name is left alone by a second pass, and a name that is already
      made of letters, digits and underscores is its own sanitised form. */
  lemma SanitizeIdempotent(s: string)
    ensures Sanitize(Sanitize(s)) == Sanitize(s)
    ensures (forall k :: 0 <= k < |s| ==> IsAsciiAlnum(s[k]) || s[k] == '_') ==> Sanitize(s) == s
  {
  }
}
