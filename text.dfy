/** String operations the core relies on: JavaScript's `trim`, lower-casing and
    `includes`, decimal printing with `padStart`, and a reader for the `H:MM:SS`
    style texts the displays produce (used to state that those texts lose nothing). */
module Text {
  import opened Basics

  // ---------------------------------------------------------------------------
  // Trimming

  /** The code points that `String.prototype.trim` strips: ECMAScript's
      WhiteSpace (TAB, VT, FF, SP, NBSP, ZWNBSP and the Zs category) and
      LineTerminator (LF, CR, LS, PS). */
  predicate IsSpace(c: char)
  {
    c == '\t' || c == '\n' || c == '\U{000B}' || c == '\U{000C}' || c == '\r' || c == ' '
    || c == '\U{00A0}' || c == '\U{1680}' || ('\U{2000}' <= c <= '\U{200A}')
    || c == '\U{2028}' || c == '\U{2029}' || c == '\U{202F}' || c == '\U{205F}'
    || c == '\U{3000}' || c == '\U{FEFF}'
  }

  predicate AllSpace(s: string)
  {
    forall i :: 0 <= i < |s| ==> IsSpace(s[i])
  }

  function TrimStart(s: string): (r: string)
    ensures |r| <= |s| && r == s[|s| - |r|..]
    ensures AllSpace(s[..|s| - |r|])
    ensures |r| > 0 ==> !IsSpace(r[0])
  {
    if |s| > 0 && IsSpace(s[0]) then TrimStart(s[1..]) else s
  }

  function TrimEnd(s: string): (r: string)
    ensures |r| <= |s| && r == s[..|r|]
    ensures AllSpace(s[|r|..])
    ensures |r| > 0 ==> !IsSpace(r[|r| - 1])
  {
    if |s| > 0 && IsSpace(s[|s| - 1]) then TrimEnd(s[..|s| - 1]) else s
  }

  /** `String.prototype.trim`: the text between the leading and the trailing white space. */
  function Trim(s: string): (r: string)
    ensures |r| == 0 <==> AllSpace(s)
    ensures |r| > 0 ==> !IsSpace(r[0]) && !IsSpace(r[|r| - 1])
    ensures |r| <= |s|
  {
    var t := TrimStart(s);
    var r := TrimEnd(t);
    TrimmedEmpty(s[..|s| - |t|], t, r);
    r
  }

  /** `trim` cuts white space off the ends and nothing else: the result is the slice of
      `s` between a leading and a trailing run of white space. */
  lemma TrimIsSlice(s: string)
    ensures exists i :: 0 <= i <= |s| - |Trim(s)| && Trim(s) == s[i..i + |Trim(s)|]
                        && AllSpace(s[..i]) && AllSpace(s[i + |Trim(s)|..])
  {
    var t := TrimStart(s);
    var r := TrimEnd(t);
    assert Trim(s) == r;
    TrimmedSlice(s, t, r);
    var i := |s| - |t|;
    assert r == s[i..i + |r|] && AllSpace(s[..i]) && AllSpace(s[i + |r|..]);
  }

  /** The trimmed text is the slice of `s` between its leading and its trailing white space. */
  lemma TrimmedSlice(s: string, t: string, r: string)
    requires |t| <= |s| && t == s[|s| - |t|..] && AllSpace(s[..|s| - |t|])
    requires |r| <= |t| && r == t[..|r|] && AllSpace(t[|r|..])
    ensures var i := |s| - |t|;
            r == s[i..i + |r|] && AllSpace(s[..i]) && AllSpace(s[i + |r|..])
  {
    var i := |s| - |t|;
    assert s[i + |r|..] == t[|r|..];
  }

  lemma TrimmedEmpty(lead: string, t: string, r: string)
    requires AllSpace(lead) && |r| <= |t| && r == t[..|r|] && AllSpace(t[|r|..])
    requires |t| > 0 ==> !IsSpace(t[0])
    ensures |r| == 0 <==> AllSpace(lead + t)
  {
    if |r| == 0 {
      assert t == t[|r|..];
    } else {
      assert (lead + t)[|lead|] == t[0];
    }
  }

  /** Trimming a trimmed text changes nothing. */
  lemma TrimIdempotent(s: string)
    ensures Trim(Trim(s)) == Trim(s)
  {
    var r := Trim(s);
    if |r| > 0 {
      assert TrimStart(r) == r;
      assert TrimEnd(r) == r;
    }
  }

  // ---------------------------------------------------------------------------
  // Case and search

  /** `toLowerCase` restricted to the ASCII letters. */
  function LowerChar(c: char): char
  {
    if 'A' <= c <= 'Z' then (c as int + 32) as char else c
  }

  /** Lower-casing leaves no capital letter, moves each capital to its small letter,
      and keeps every other character. */
  function Lower(s: string): (r: string)
    ensures |r| == |s|
    ensures forall i :: 0 <= i < |r| ==> !('A' <= r[i] <= 'Z')
    ensures forall i :: 0 <= i < |s| && 'A' <= s[i] <= 'Z' ==> r[i] as int == s[i] as int + 32
    ensures forall i :: 0 <= i < |s| && !('A' <= s[i] <= 'Z') ==> r[i] == s[i]
  {
    seq(|s|, i requires 0 <= i < |s| => LowerChar(s[i]))
  }

  /** Lower-casing a lower-cased text changes nothing. */
  lemma LowerIdempotent(s: string)
    ensures Lower(Lower(s)) == Lower(s)
  {
  }

  /** `hay.includes(needle)`: `needle` occurs in `hay` at some position. */
  predicate Contains(hay: string, needle: string)
    decreases |hay|
  {
    needle <= hay || (|hay| > 0 && Contains(hay[1..], needle))
  }

  /** A text is found in any text that has it as a slice. */
  lemma {:induction false} ContainsSlice(hay: string, i: nat, j: nat)
    requires i <= j <= |hay|
    ensures Contains(hay, hay[i..j])
    decreases i
  {
    if i > 0 {
      ContainsSlice(hay[1..], i - 1, j - 1);
      assert hay[1..][i - 1..j - 1] == hay[i..j];
    }
  }

  // ---------------------------------------------------------------------------
  // Decimal numbers

  predicate IsDigit(c: char)
  {
    '0' <= c <= '9'
  }

  predicate AllDigits(s: string)
  {
    forall i :: 0 <= i < |s| ==> IsDigit(s[i])
  }

  function DigitChar(d: nat): (c: char)
    requires d < 10
    ensures IsDigit(c) && c as int - '0' as int == d
  {
    ('0' as int + d) as char
  }

  /** The value of a string of decimal digits, most significant first. */
  function DigitsValue(s: string): nat
    requires AllDigits(s)
  {
    if |s| == 0 then 0 else DigitsValue(s[..|s| - 1]) * 10 + (s[|s| - 1] as int - '0' as int)
  }

  /** `n.toString()` for a non-negative integer. */
  function NatToString(n: nat): (r: string)
    ensures |r| > 0 && AllDigits(r)
  {
    if n < 10 then [DigitChar(n)] else NatToString(n / 10) + [DigitChar(n % 10)]
  }

  /** The decimal digits of `n` read back give `n`. */
  lemma {:induction false} NatToStringValue(n: nat)
    ensures DigitsValue(NatToString(n)) == n
  {
    if n >= 10 {
      var r := NatToString(n);
      NatToStringValue(n / 10);
      assert r[..|r| - 1] == NatToString(n / 10);
    }
  }

  /** `s.padStart(width, '0')`: as many zeros in front as are missing to reach `width`. */
  function PadZeros(s: string, width: nat): (r: string)
    ensures |r| == if |s| >= width then |s| else width
    ensures AllDigits(s) ==> AllDigits(r)
    ensures AllDigits(s) ==> DigitsValue(r) == DigitsValue(s)
    decreases width - |s|
  {
    if |s| >= width then s
    else
      var r := PadZeros(['0'] + s, width);
      LeadingZero(s);
      r
  }

  lemma {:induction false} LeadingZero(s: string)
    ensures AllDigits(s) ==> AllDigits(['0'] + s) && DigitsValue(['0'] + s) == DigitsValue(s)
  {
    if |s| > 0 && AllDigits(s) {
      LeadingZero(s[..|s| - 1]);
      assert (['0'] + s)[..|s|] == ['0'] + s[..|s| - 1];
    }
  }

  /** A two-digit field as the displays print it: `n.toString().padStart(2, '0')`. */
  function Pad2(n: nat): (r: string)
    ensures |r| >= 2 && AllDigits(r) && DigitsValue(r) == n
  {
    NatToStringValue(n);
    PadZeros(NatToString(n), 2)
  }

  /** A three-digit field: `n.toString().padStart(3, '0')`. */
  function Pad3(n: nat): (r: string)
    ensures |r| >= 3 && AllDigits(r) && DigitsValue(r) == n
  {
    NatToStringValue(n);
    PadZeros(NatToString(n), 3)
  }

  /** A non-empty string of digits, or nothing. */
  function ParseNat(s: string): (r: Option<nat>)
    ensures r.Some? <==> |s| > 0 && AllDigits(s)
  {
    if |s| > 0 && AllDigits(s) then Some(DigitsValue(s)) else None
  }

  // ---------------------------------------------------------------------------
  // Reading clock texts back

  /** `s.split(sep)`. */
  function Split(s: string, sep: char): (parts: seq<string>)
    ensures |parts| > 0
  {
    if |s| == 0 then [""]
    else if s[0] == sep then [""] + Split(s[1..], sep)
    else
      var rest := Split(s[1..], sep);
      [[s[0]] + rest[0]] + rest[1..]
  }

  lemma {:induction false} SplitNoSep(a: string, sep: char)
    requires sep !in a
    ensures Split(a, sep) == [a]
  {
    if |a| > 0 {
      SplitNoSep(a[1..], sep);
      assert [a[0]] + a[1..] == a;
    }
  }

  lemma {:induction false} SplitAt(a: string, sep: char, b: string)
    requires sep !in a
    ensures Split(a + [sep] + b, sep) == [a] + Split(b, sep)
  {
    if |a| == 0 {
      assert a + [sep] + b == [sep] + b;
      assert ([sep] + b)[1..] == b;
    } else {
      assert (a + [sep] + b)[1..] == a[1..] + [sep] + b;
      SplitAt(a[1..], sep, b);
      assert [a[0]] + a[1..] == a;
    }
  }

  /** The number of seconds a `M:SS` or `H:MM:SS` text stands for; nothing for
      any other text. */
  function ParseClock(text: string): Option<nat>
  {
    ParseFields(Split(text, ':'))
  }

  function ParseFields(parts: seq<string>): Option<nat>
  {
    if |parts| == 2 then Minutes(ParseNat(parts[0]), ParseNat(parts[1]))
    else if |parts| == 3 then Hours(ParseNat(parts[0]), Minutes(ParseNat(parts[1]), ParseNat(parts[2])))
    else None
  }

  /** `m * 60 + s` when both fields are numbers. */
  function Minutes(m: Option<nat>, s: Option<nat>): Option<nat>
  {
    if m.Some? && s.Some? then Some(m.value * 60 + s.value) else None
  }

  /** `h * 3600 + rest` when both are numbers. */
  function Hours(h: Option<nat>, rest: Option<nat>): Option<nat>
  {
    if h.Some? && rest.Some? then Some(h.value * 3600 + rest.value) else None
  }

  lemma DigitsHaveNoColon(s: string)
    requires AllDigits(s)
    ensures ':' !in s
  {
  }

  /** Two digit fields joined by a colon are read back field by field, as minutes and seconds. */
  lemma ParseClock2(a: string, b: string)
    requires AllDigits(a) && AllDigits(b)
    ensures ParseClock(a + ":" + b) == Minutes(ParseNat(a), ParseNat(b))
  {
    SplitTwo(a, b);
  }

  /** Three digit fields joined by colons are read back field by field, as hours,
      minutes and seconds. */
  lemma ParseClock3(a: string, b: string, c: string)
    requires AllDigits(a) && AllDigits(b) && AllDigits(c)
    ensures ParseClock(a + ":" + b + ":" + c) == Hours(ParseNat(a), Minutes(ParseNat(b), ParseNat(c)))
  {
    SplitThree(a, b, c);
  }

  /** The number of seconds in `h` hours, `m` minutes and `s` seconds. */
  function ClockSeconds(h: nat, m: nat, s: nat): nat
  {
    h * 3600 + m * 60 + s
  }

  /** A clock text whose fields read as `h`, `m` and `s` stands for `h * 3600 + m * 60 + s` seconds. */
  lemma ReadClock3(a: string, b: string, c: string, h: nat, m: nat, s: nat)
    requires ParseNat(a) == Some(h) && ParseNat(b) == Some(m) && ParseNat(c) == Some(s)
    ensures ParseClock(a + ":" + b + ":" + c) == Some(ClockSeconds(h, m, s))
  {
    ParseClock3(a, b, c);
  }

  /** A clock text whose fields read as `m` and `s` stands for `m * 60 + s` seconds. */
  lemma ReadClock2(a: string, b: string, m: nat, s: nat)
    requires ParseNat(a) == Some(m) && ParseNat(b) == Some(s)
    ensures ParseClock(a + ":" + b) == Some(m * 60 + s)
  {
    ParseClock2(a, b);
  }

  /** A number below a thousand prints in at most three digits. */
  lemma ShortNumber(n: nat)
    requires n < 1000
    ensures |NatToString(n)| <= 3
  {
    if n >= 10 {
      assert |NatToString(n / 10)| <= 2 by {
        if n / 10 >= 10 {
          assert NatToString(n / 10) == NatToString(n / 100) + [DigitChar(n / 10 % 10)];
        }
      }
    }
  }

  /** A number below a hundred fills a two-digit field exactly. */
  lemma TwoDigitField(n: nat)
    ensures n < 100 ==> |Pad2(n)| == 2
  {
    if 10 <= n < 100 {
      assert NatToString(n) == NatToString(n / 10) + [DigitChar(n % 10)];
    }
  }

  /** The printed forms of a number read back as that number. */
  lemma ReadPrinted(n: nat)
    ensures ParseNat(NatToString(n)) == Some(n)
    ensures ParseNat(Pad2(n)) == Some(n) && ParseNat(Pad3(n)) == Some(n)
  {
    NatToStringValue(n);
  }

  lemma SplitTwo(a: string, b: string)
    requires AllDigits(a) && AllDigits(b)
    ensures Split(a + ":" + b, ':') == [a, b]
  {
    DigitsHaveNoColon(a);
    DigitsHaveNoColon(b);
    assert a + ":" + b == a + [':'] + b;
    SplitAt(a, ':', b);
    SplitNoSep(b, ':');
  }

  lemma SplitThree(a: string, b: string, c: string)
    requires AllDigits(a) && AllDigits(b) && AllDigits(c)
    ensures Split(a + ":" + b + ":" + c, ':') == [a, b, c]
  {
    DigitsHaveNoColon(a);
    var bc := b + ":" + c;
    assert a + ":" + b + ":" + c == a + [':'] + bc;
    SplitAt(a, ':', bc);
    SplitTwo(b, c);
  }
}
