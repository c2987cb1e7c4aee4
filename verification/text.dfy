/** The .NET string primitives the SQL builders rely on: `string.Join`, `String.Split(char)`,
    `String.Trim`, `ToLower`, integer printing and `int.TryParse`. */
module Text {
  import opened Wrappers

  /** `string.Join(sep, parts)`: the parts with `sep` between neighbours. */
  function Join(sep: string, parts: seq<string>): string
    decreases |parts|
  {
    if |parts| == 0 then ""
    else if |parts| == 1 then parts[0]
    else parts[0] + sep + Join(sep, parts[1..])
  }

  /** Every part followed by `sep`, one after another: the text of a loop that appends
      `part + sep` once per part. */
  function TerminatedText(parts: seq<string>, sep: string): string
    decreases |parts|
  {
    if |parts| == 0 then "" else parts[0] + sep + TerminatedText(parts[1..], sep)
  }

  /** Every part preceded by `sep`: the text of a loop that appends `sep + part` once per part. */
  function PrefixedText(sep: string, parts: seq<string>): string
    decreases |parts|
  {
    if |parts| == 0 then "" else sep + parts[0] + PrefixedText(sep, parts[1..])
  }

  lemma JoinSnoc(sep: string, parts: seq<string>, last: string)
    requires |parts| > 0
    ensures Join(sep, parts + [last]) == Join(sep, parts) + sep + last
    decreases |parts|
  {
    if |parts| > 1 {
      assert (parts + [last])[1..] == parts[1..] + [last];
      JoinSnoc(sep, parts[1..], last);
    } else {
      assert parts + [last] == [parts[0], last];
    }
  }

  /** One more iteration of the appending loop adds `last + sep` at the end. */
  lemma {:induction false} TerminatedTextSnoc(parts: seq<string>, sep: string, last: string)
    ensures TerminatedText(parts + [last], sep) == TerminatedText(parts, sep) + last + sep
    decreases |parts|
  {
    if |parts| > 0 {
      assert (parts + [last])[1..] == parts[1..] + [last];
      TerminatedTextSnoc(parts[1..], sep, last);
    } else {
      assert parts + [last] == [last];
    }
  }

  /** One more iteration of the prefixing loop adds `sep + last` at the end. */
  lemma {:induction false} PrefixedTextSnoc(sep: string, parts: seq<string>, last: string)
    ensures PrefixedText(sep, parts + [last]) == PrefixedText(sep, parts) + sep + last
    decreases |parts|
  {
    if |parts| > 0 {
      assert (parts + [last])[1..] == parts[1..] + [last];
      PrefixedTextSnoc(sep, parts[1..], last);
    } else {
      assert parts + [last] == [last];
    }
  }

  /** Appending "item, " for each item and then joining the rest with ", " is one join. */
  lemma {:induction false} TerminatedThenJoin(parts: seq<string>, sep: string, rest: seq<string>)
    requires |rest| > 0
    ensures TerminatedText(parts, sep) + Join(sep, rest) == Join(sep, parts + rest)
    decreases |parts|
  {
    if |parts| > 0 {
      TerminatedThenJoin(parts[1..], sep, rest);
      assert (parts + rest)[1..] == parts[1..] + rest;
    } else {
      assert parts + rest == rest;
    }
  }

  /** A join followed by ", item" for each item is one join. */
  lemma {:induction false} JoinThenPrefixed(sep: string, parts: seq<string>, more: seq<string>)
    requires |parts| > 0
    ensures Join(sep, parts) + PrefixedText(sep, more) == Join(sep, parts + more)
    decreases |more|
  {
    if |more| > 0 {
      assert (parts + more) == (parts + [more[0]]) + more[1..];
      JoinSnoc(sep, parts, more[0]);
      JoinThenPrefixed(sep, parts + [more[0]], more[1..]);
    } else {
      assert parts + more == parts;
    }
  }

  // ---------------------------------------------------------------- Take and Skip

  /** How many items `Take(n)` keeps from a sequence of length `len`. */
  function Clamp(n: int, len: nat): (r: nat)
    ensures r <= len
    ensures n <= 0 ==> r == 0
    ensures 0 <= n <= len ==> r == n
    ensures n >= len ==> r == len
  {
    if n <= 0 then 0 else if n <= len then n else len
  }

  // ---------------------------------------------------------------- splitting

  /** Position of the first `c` in `s`. */
  function IndexOfChar(s: string, c: char): (i: nat)
    requires c in s
    ensures i < |s| && s[i] == c && c !in s[..i]
  {
    if s[0] == c then 0
    else
      var j := IndexOfChar(s[1..], c);
      assert s[..j + 1] == [s[0]] + s[1..][..j];
      j + 1
  }

  /** `s.Split(c)`: the maximal `c`-free segments of `s`, empty ones included. */
  function Split(s: string, c: char): (parts: seq<string>)
    ensures |parts| >= 1
    ensures forall i :: 0 <= i < |parts| ==> c !in parts[i]
    ensures c in s <==> |parts| >= 2
    ensures c !in s ==> parts == [s]
    ensures c in s ==> parts[0] == s[..IndexOfChar(s, c)]
    decreases |s|
  {
    if c in s then
      var i := IndexOfChar(s, c);
      [s[..i]] + Split(s[i + 1..], c)
    else
      [s]
  }

  /** Joining the segments with the separator gives back the original string. */
  lemma {:induction false} SplitJoin(s: string, c: char)
    ensures Join([c], Split(s, c)) == s
    decreases |s|
  {
    if c in s {
      var i := IndexOfChar(s, c);
      var pre, post := s[..i], s[i + 1..];
      calc {
        Join([c], Split(s, c));
        Join([c], [pre] + Split(post, c));
        { JoinCons([c], pre, Split(post, c)); }
        pre + [c] + Join([c], Split(post, c));
        { SplitJoin(post, c); }
        pre + [c] + post;
        { SplitAround(s, i); }
        s;
      }
    }
  }

  lemma SplitAround(s: string, i: nat)
    requires i < |s|
    ensures s[..i] + [s[i]] + s[i + 1..] == s
  {
  }

  lemma JoinCons(sep: string, first: string, rest: seq<string>)
    requires |rest| > 0
    ensures Join(sep, [first] + rest) == first + sep + Join(sep, rest)
  {
    assert ([first] + rest)[1..] == rest;
  }

  /** A `c`-free prefix and then `c`: the first segment is the prefix, the rest is split on. */
  lemma SplitAfterFirst(a: string, c: char, b: string)
    requires c !in a
    ensures Split(a + [c] + b, c) == [a] + Split(b, c)
  {
    var s := a + [c] + b;
    assert s[|a|] == c;
    var i := IndexOfChar(s, c);
    assert s[..i] == a;
    assert s[i + 1..] == b;
  }

  /** Splitting the join of `c`-free parts gives the parts back. */
  lemma {:induction false} JoinSplit(parts: seq<string>, c: char)
    requires |parts| >= 1
    requires forall i :: 0 <= i < |parts| ==> c !in parts[i]
    ensures Split(Join([c], parts), c) == parts
  {
    if |parts| > 1 {
      assert c !in parts[0];
      assert Join([c], parts) == parts[0] + [c] + Join([c], parts[1..]);
      JoinSplit(parts[1..], c);
      SplitAfterFirst(parts[0], c, Join([c], parts[1..]));
    }
  }

  // ---------------------------------------------------------------- trimming

  /** `char.IsWhiteSpace`: the Unicode space separators, line and paragraph separators,
      U+0009..U+000D, U+0085 and U+00A0. */
  predicate IsWhiteSpace(ch: char) {
    || ch == ' ' || ('\t' <= ch <= '\r') || ch == '\U{85}' || ch == '\U{A0}'
    || ch == '\U{1680}' || ('\U{2000}' <= ch <= '\U{200A}') || ch == '\U{2028}'
    || ch == '\U{2029}' || ch == '\U{202F}' || ch == '\U{205F}' || ch == '\U{3000}'
  }

  /** The white space `int.TryParse` skips around a number: space and U+0009..U+000D. */
  predicate IsNumberWhite(ch: char) {
    ch == ' ' || ('\t' <= ch <= '\r')
  }

  function TrimStartWith(s: string, white: char -> bool): (r: string)
    ensures |r| <= |s| && r == s[|s| - |r|..]
    ensures forall i :: 0 <= i < |s| - |r| ==> white(s[i])
    ensures |r| > 0 ==> !white(r[0])
  {
    if |s| > 0 && white(s[0]) then
      var r := TrimStartWith(s[1..], white);
      assert s[|s| - |r|..] == s[1..][|s| - 1 - |r|..];
      assert forall i :: 1 <= i < |s| - |r| ==> s[i] == s[1..][i - 1];
      r
    else s
  }

  function TrimEndWith(s: string, white: char -> bool): (r: string)
    ensures |r| <= |s| && r == s[..|r|]
    ensures forall i :: |r| <= i < |s| ==> white(s[i])
    ensures |r| > 0 ==> !white(r[|r| - 1])
  {
    if |s| > 0 && white(s[|s| - 1]) then TrimEndWith(s[..|s| - 1], white) else s
  }

  /** `r` occurs in `s` at offset `a`, and everything around it is white space. */
  predicate TrimmedAt(s: string, r: string, a: int) {
    && 0 <= a <= |s| - |r|
    && r == s[a..a + |r|]
    && (forall i :: 0 <= i < a ==> IsWhiteSpace(s[i]))
    && (forall i :: a + |r| <= i < |s| ==> IsWhiteSpace(s[i]))
  }

  /** `s.Trim()`: the infix of `s` left after removing leading and trailing white space. */
  function Trim(s: string): (r: string)
    ensures exists a :: TrimmedAt(s, r, a)
    ensures |r| > 0 ==> !IsWhiteSpace(r[0]) && !IsWhiteSpace(r[|r| - 1])
  {
    var t := TrimStartWith(s, IsWhiteSpace);
    var r := TrimEndWith(t, IsWhiteSpace);
    TrimBothEnds(s, t, r);
    r
  }

  /** Trimming the start of `s` to `t` and the end of `t` to `r` leaves `r` where `t` began. */
  lemma TrimBothEnds(s: string, t: string, r: string)
    requires |t| <= |s| && t == s[|s| - |t|..]
    requires forall i :: 0 <= i < |s| - |t| ==> IsWhiteSpace(s[i])
    requires |r| <= |t| && r == t[..|r|]
    requires forall i :: |r| <= i < |t| ==> IsWhiteSpace(t[i])
    ensures TrimmedAt(s, r, |s| - |t|)
  {
    var a := |s| - |t|;
    forall i | a + |r| <= i < |s|
      ensures IsWhiteSpace(s[i])
    {
      assert s[i] == t[i - a];
    }
  }

  /** `s.ToLower()` on the ASCII letters. */
  function AsciiLower(s: string): (r: string)
    ensures |r| == |s|
  {
    seq(|s|, i requires 0 <= i < |s| => if 'A' <= s[i] <= 'Z' then (s[i] as int + 32) as char else s[i])
  }

  // ---------------------------------------------------------------- integers

  const Int32Min: int := -0x8000_0000
  const Int32Max: int := 0x7FFF_FFFF

  predicate IsDigit(c: char) {
    '0' <= c <= '9'
  }

  predicate AllDigits(s: string) {
    forall i :: 0 <= i < |s| ==> IsDigit(s[i])
  }

  function DigitChar(d: nat): (c: char)
    requires d < 10
    ensures IsDigit(c)
  {
    ('0' as int + d) as char
  }

  function DigitValue(c: char): (d: nat)
    requires IsDigit(c)
    ensures d < 10 && DigitChar(d) == c
  {
    c as int - '0' as int
  }

  /** `n.ToString()` for a non-negative `n`: decimal digits, no sign, no leading zero. */
  function NatToString(n: nat): (s: string)
    ensures |s| >= 1 && AllDigits(s)
    ensures |s| > 1 ==> s[0] != '0'
  {
    if n < 10 then [DigitChar(n)] else NatToString(n / 10) + [DigitChar(n % 10)]
  }

  /** The number a string of decimal digits denotes. */
  function DigitsValue(s: string): nat
    requires AllDigits(s)
  {
    if |s| == 0 then 0 else 10 * DigitsValue(s[..|s| - 1]) + DigitValue(s[|s| - 1])
  }

  lemma {:induction false} DigitsRoundTrip(n: nat)
    ensures DigitsValue(NatToString(n)) == n
  {
    if n >= 10 {
      var s := NatToString(n);
      assert s[..|s| - 1] == NatToString(n / 10);
      DigitsRoundTrip(n / 10);
    }
  }

  /** Distinct numbers print differently, so the placeholders `@i` are pairwise distinct. */
  lemma NatToStringInjective(m: nat, n: nat)
    requires NatToString(m) == NatToString(n)
    ensures m == n
  {
    DigitsRoundTrip(m);
    DigitsRoundTrip(n);
  }

  /** `int.TryParse(s, out v)` with `NumberStyles.Integer`: optional white space, an optional
      `+` or `-`, at least one decimal digit, optional white space, and a value that fits in
      a 32-bit signed integer; `None` stands for a `false` return. */
  function TryParseInt32(s: string): (r: Option<int>)
    ensures r.Some? ==> Int32Min <= r.value <= Int32Max
  {
    ParseSignedDigits(TrimEndWith(TrimStartWith(s, IsNumberWhite), IsNumberWhite))
  }

  /** The part of `int.TryParse` after the white space is gone: sign, digits, range. */
  function ParseSignedDigits(t: string): (r: Option<int>)
    ensures r.Some? ==> Int32Min <= r.value <= Int32Max
  {
    var signed := |t| > 0 && (t[0] == '-' || t[0] == '+');
    var digits := if signed then t[1..] else t;
    if |digits| == 0 || !AllDigits(digits) then None
    else
      var v: int := if |t| > 0 && t[0] == '-' then 0 - (DigitsValue(digits) as int) else DigitsValue(digits);
      if Int32Min <= v <= Int32Max then Some(v) else None
  }

  /** `n.ToString()` in the invariant culture. */
  function Int32ToString(n: int): string {
    if n < 0 then "-" + NatToString(-n) else NatToString(n)
  }

  /** Distinct numbers print differently. */
  lemma Int32ToStringInjective(a: int, b: int)
    requires Int32ToString(a) == Int32ToString(b)
    ensures a == b
  {
    var sa, sb := Int32ToString(a), Int32ToString(b);
    if a < 0 && b < 0 {
      assert sa[1..] == NatToString(-a) && sb[1..] == NatToString(-b);
      NatToStringInjective(-a, -b);
    } else if a >= 0 && b >= 0 {
      NatToStringInjective(a, b);
    }
  }

  /** A string whose ends are not number white space is left as it is by the parser's trim. */
  lemma NumberTrimKeeps(s: string)
    requires |s| > 0 && !IsNumberWhite(s[0]) && !IsNumberWhite(s[|s| - 1])
    ensures TrimEndWith(TrimStartWith(s, IsNumberWhite), IsNumberWhite) == s
  {
    assert TrimStartWith(s, IsNumberWhite) == s;
    assert TrimEndWith(s, IsNumberWhite) == s;
  }

  lemma ParseNonNegative(n: int)
    requires 0 <= n <= Int32Max
    ensures ParseSignedDigits(NatToString(n)) == Some(n)
  {
    var t := NatToString(n);
    assert IsDigit(t[0]);
    DigitsRoundTrip(n);
  }

  lemma ParseNegative(n: int)
    requires Int32Min <= n < 0
    ensures ParseSignedDigits("-" + NatToString(-n)) == Some(n)
  {
    var t := "-" + NatToString(-n);
    assert t[1..] == NatToString(-n);
    DigitsRoundTrip(-n);
  }

  /** Every 32-bit value survives printing and parsing back. */
  lemma ParseInt32RoundTrip(n: int)
    requires Int32Min <= n <= Int32Max
    ensures TryParseInt32(Int32ToString(n)) == Some(n)
  {
    var s := Int32ToString(n);
    if n < 0 {
      assert s[0] == '-';
      ParseNegative(n);
    } else {
      assert IsDigit(s[0]);
      ParseNonNegative(n);
    }
    NumberTrimKeeps(s);
  }

  /** Trimming the start skips a white prefix and stops at the first other character. */
  lemma {:induction false} TrimStartSkips(w: string, u: string, white: char -> bool)
    requires forall i :: 0 <= i < |w| ==> white(w[i])
    requires |u| > 0 && !white(u[0])
    ensures TrimStartWith(w + u, white) == u
    decreases |w|
  {
    if |w| == 0 {
      assert w + u == u;
    } else {
      assert (w + u)[1..] == w[1..] + u;
      TrimStartSkips(w[1..], u, white);
    }
  }

  /** Trimming the end skips a white suffix and stops at the last other character. */
  lemma {:induction false} TrimEndSkips(u: string, w: string, white: char -> bool)
    requires forall i :: 0 <= i < |w| ==> white(w[i])
    requires |u| > 0 && !white(u[|u| - 1])
    ensures TrimEndWith(u + w, white) == u
    decreases |w|
  {
    if |w| == 0 {
      assert u + w == u;
    } else {
      assert (u + w)[..|u + w| - 1] == u + w[..|w| - 1];
      TrimEndSkips(u, w[..|w| - 1], white);
    }
  }

  /** The forms `int.TryParse` accepts: number white space, an optional `+` or `-`, one or more
      decimal digits (leading zeros allowed) and number white space. Such a text parses to its
      value exactly when the value fits in 32 bits, and fails otherwise. */
  lemma ParseAcceptedForm(lead: string, sign: string, digits: string, trail: string)
    requires forall i :: 0 <= i < |lead| ==> IsNumberWhite(lead[i])
    requires forall i :: 0 <= i < |trail| ==> IsNumberWhite(trail[i])
    requires sign == "" || sign == "+" || sign == "-"
    requires |digits| > 0 && AllDigits(digits)
    ensures var v := if sign == "-" then 0 - DigitsValue(digits) else DigitsValue(digits);
            TryParseInt32(lead + sign + digits + trail) == if Int32Min <= v <= Int32Max then Some(v) else None
  {
    var t := sign + digits;
    ConcatAssoc(lead, sign, digits);
    assert t[|t| - 1] == digits[|digits| - 1];
    if sign == "" {
      assert t[0] == digits[0];
    } else {
      assert t[0] == sign[0];
    }
    ParseIgnoresWhite(lead, t, trail);
    SignedDigits(sign, digits);
  }

  /** Concatenation is associative; stated once so that long concatenations can be regrouped
      one step at a time. */
  lemma ConcatAssoc(x: string, y: string, z: string)
    ensures x + y + z == x + (y + z)
  {
  }

  /** Number white space around a text that neither starts nor ends with it does not matter. */
  lemma ParseIgnoresWhite(lead: string, t: string, trail: string)
    requires forall i :: 0 <= i < |lead| ==> IsNumberWhite(lead[i])
    requires forall i :: 0 <= i < |trail| ==> IsNumberWhite(trail[i])
    requires |t| > 0 && !IsNumberWhite(t[0]) && !IsNumberWhite(t[|t| - 1])
    ensures TryParseInt32(lead + t + trail) == ParseSignedDigits(t)
  {
    assert lead + t + trail == lead + (t + trail);
    TrimStartSkips(lead, t + trail, IsNumberWhite);
    TrimEndSkips(t, trail, IsNumberWhite);
  }

  lemma SignedDigits(sign: string, digits: string)
    requires sign == "" || sign == "+" || sign == "-"
    requires |digits| > 0 && AllDigits(digits)
    ensures var v := if sign == "-" then 0 - DigitsValue(digits) else DigitsValue(digits);
            ParseSignedDigits(sign + digits) == if Int32Min <= v <= Int32Max then Some(v) else None
  {
    if sign == "" {
      assert sign + digits == digits;
      UnsignedDigits(digits);
    } else {
      var t := sign + digits;
      assert t[1..] == digits;
      if sign == "-" {
        assert t[0] == '-';
      } else {
        assert t[0] == '+';
      }
      MarkedDigits(t);
    }
  }

  lemma UnsignedDigits(digits: string)
    requires |digits| > 0 && AllDigits(digits)
    ensures ParseSignedDigits(digits) == if DigitsValue(digits) <= Int32Max then Some(DigitsValue(digits) as int) else None
  {
    assert IsDigit(digits[0]);
  }

  lemma MarkedDigits(t: string)
    requires |t| > 1 && (t[0] == '+' || t[0] == '-') && AllDigits(t[1..])
    ensures var v := if t[0] == '-' then 0 - DigitsValue(t[1..]) else DigitsValue(t[1..]);
            ParseSignedDigits(t) == if Int32Min <= v <= Int32Max then Some(v) else None
  {
  }

  /** `s` is number white space, an optional sign, one or more digits and number white space. */
  predicate AcceptedForm(s: string, lead: string, sign: string, digits: string, trail: string) {
    && s == lead + sign + digits + trail
    && (forall i :: 0 <= i < |lead| ==> IsNumberWhite(lead[i]))
    && (forall i :: 0 <= i < |trail| ==> IsNumberWhite(trail[i]))
    && (sign == "" || sign == "+" || sign == "-")
    && |digits| > 0 && AllDigits(digits)
  }

  /** The converse of `ParseAcceptedForm`: a text that parses has the accepted form, so every
      other text (a letter, a second sign, a non-breaking space, the empty string) fails. */
  lemma ParsedTextHasAcceptedForm(s: string)
    ensures TryParseInt32(s).Some? ==> exists lead, sign, digits, trail :: AcceptedForm(s, lead, sign, digits, trail)
  {
    if TryParseInt32(s).Some? {
      var lead, t, trail := TrimSplit(s);
      var sign, digits := SignSplit(t);
      ConcatAssoc(lead, sign, digits);
      assert AcceptedForm(s, lead, sign, digits, trail);
    }
  }

  /** The parser's trim cuts `s` into a white prefix, the trimmed text and a white suffix. */
  lemma TrimSplit(s: string) returns (lead: string, t: string, trail: string)
    ensures t == TrimEndWith(TrimStartWith(s, IsNumberWhite), IsNumberWhite)
    ensures s == lead + t + trail
    ensures forall i :: 0 <= i < |lead| ==> IsNumberWhite(lead[i])
    ensures forall i :: 0 <= i < |trail| ==> IsNumberWhite(trail[i])
  {
    var t1 := TrimStartWith(s, IsNumberWhite);
    lead := WhitePrefix(s);
    t := TrimEndWith(t1, IsNumberWhite);
    trail := WhiteSuffix(t1);
    ConcatAssoc(lead, t, trail);
  }

  lemma WhitePrefix(s: string) returns (lead: string)
    ensures s == lead + TrimStartWith(s, IsNumberWhite)
    ensures forall i :: 0 <= i < |lead| ==> IsNumberWhite(lead[i])
  {
    var t1 := TrimStartWith(s, IsNumberWhite);
    lead := s[..|s| - |t1|];
    assert s == lead + s[|s| - |t1|..];
    forall i | 0 <= i < |lead|
      ensures IsNumberWhite(lead[i])
    {
      assert lead[i] == s[i];
    }
  }

  lemma WhiteSuffix(t1: string) returns (trail: string)
    ensures t1 == TrimEndWith(t1, IsNumberWhite) + trail
    ensures forall i :: 0 <= i < |trail| ==> IsNumberWhite(trail[i])
  {
    var t := TrimEndWith(t1, IsNumberWhite);
    trail := t1[|t|..];
    assert t1 == t + trail;
    forall i | 0 <= i < |trail|
      ensures IsNumberWhite(trail[i])
    {
      assert trail[i] == t1[|t| + i];
    }
  }

  /** A trimmed text that parses is an optional sign followed by digits. */
  lemma SignSplit(t: string) returns (sign: string, digits: string)
    requires ParseSignedDigits(t).Some?
    ensures t == sign + digits
    ensures sign == "" || sign == "+" || sign == "-"
    ensures |digits| > 0 && AllDigits(digits)
  {
    if t[0] == '-' || t[0] == '+' {
      sign, digits := [t[0]], t[1..];
      assert t == [t[0]] + t[1..];
    } else {
      sign, digits := "", t;
      assert t == "" + t;
    }
  }

  /** Texts outside the accepted form are refused. */
  lemma RejectedTexts()
    ensures TryParseInt32("") == None
    ensures TryParseInt32("abc") == None
    ensures TryParseInt32("5a") == None
    ensures TryParseInt32("--5") == None
    ensures TryParseInt32("5\U{00A0}") == None
  {
    NonDigitRejected("abc", 0);
    NonDigitRejected("5a", 1);
    NonDigitRejected("--5", 1);
    NonDigitRejected("5\U{00A0}", 1);
  }

  /** A text with no white space at its ends and a character that is neither a digit nor a
      leading sign does not parse. */
  lemma NonDigitRejected(s: string, k: nat)
    requires |s| > 0 && !IsNumberWhite(s[0]) && !IsNumberWhite(s[|s| - 1])
    requires k < |s| && !IsDigit(s[k])
    requires k == 0 ==> s[0] != '+' && s[0] != '-'
    ensures TryParseInt32(s) == None
  {
    NumberTrimKeeps(s);
    if s[0] == '+' || s[0] == '-' {
      assert s[1..][k - 1] == s[k];
    }
  }

  /** Leading white space is skipped: `" 5432"` reads as 5432. */
  lemma SpacedNumberParses()
    ensures TryParseInt32(" 5432") == Some(5432)
  {
    PortDigits();
    SpacedText();
    ParseAcceptedForm(" ", "", "5432", "");
  }

  lemma SpacedText()
    ensures " " + "" + "5432" + "" == " 5432"
  {
  }

  lemma PortDigits()
    ensures AllDigits("5432") && DigitsValue("5432") == 5432
  {
    var d := "5432";
    assert d[..3] == "543" && d[..3][..2] == "54" && d[..3][..2][..1] == "5";
    assert DigitsValue("5") == 5;
    assert DigitsValue("54") == 54;
    assert DigitsValue("543") == 543;
  }

  // ---------------------------------------------------------------- identifiers and placeholders

  /** A name between double quotes, exactly as it is: an embedded double quote is not
      doubled. The generator and `SetSchema` both quote this way. */
  function Quote(name: string): string {
    "\"" + name + "\""
  }

  /** `@n`: the positional parameter `n`. */
  function Placeholder(n: int): string {
    "@" + Int32ToString(n)
  }

  /** The placeholders `@0 .. @(n-1)`, one per column. */
  function Placeholders(n: nat): (r: seq<string>)
    ensures |r| == n
    ensures forall i :: 0 <= i < n ==> r[i] == Placeholder(i)
  {
    seq(n, i requires 0 <= i < n => Placeholder(i))
  }

  /** Different slots have different placeholders, so the SET and WHERE lists never share one. */
  lemma PlaceholdersDistinct(n: nat)
    ensures forall i, j :: 0 <= i < j < n ==> Placeholders(n)[i] != Placeholders(n)[j]
  {
    forall i, j | 0 <= i < j < n
      ensures Placeholders(n)[i] != Placeholders(n)[j]
    {
      if Placeholders(n)[i] == Placeholders(n)[j] {
        PlaceholderInjective(i, j);
      }
    }
  }

  lemma PlaceholderInjective(a: int, b: int)
    requires Placeholder(a) == Placeholder(b)
    ensures a == b
  {
    assert Int32ToString(a) == Placeholder(a)[1..];
    assert Int32ToString(b) == Placeholder(b)[1..];
    Int32ToStringInjective(a, b);
  }
}
