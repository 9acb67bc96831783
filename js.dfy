/**
  The JavaScript built-ins the game server relies on, stated over Dafny strings:
  `String.prototype.includes`, `String.prototype.replace` with a string pattern and
  `parseInt` without a radix (ECMAScript sections 22.1.3.8, 22.1.3.19 with
  GetSubstitution of 22.1.3.19.1, and 19.2.5).
*/
module Js {
  import opened Wrappers

  // ---------------------------------------------------------------------------------------
  // Searching: includes / indexOf
  // ---------------------------------------------------------------------------------------

  /** `pat` occurs in `s` starting at index `i`. */
  predicate OccursAt(s: string, pat: string, i: nat)
  {
    i + |pat| <= |s| && s[i..i + |pat|] == pat
  }

  /** The first index at or after `k` where `pat` occurs in `s`, if any. */
  function IndexOfFrom(s: string, pat: string, k: nat): (r: Option<nat>)
    ensures r.Some? ==> k <= r.value && OccursAt(s, pat, r.value)
    ensures r.Some? ==> forall j: nat :: k <= j < r.value ==> !OccursAt(s, pat, j)
    ensures r.None? ==> forall j: nat :: k <= j ==> !OccursAt(s, pat, j)
    decreases |s| - k
  {
    if k + |pat| > |s| then None
    else if s[k..k + |pat|] == pat then Some(k)
    else IndexOfFrom(s, pat, k + 1)
  }

  /** The first index where `pat` occurs in `s`, if any (`s.indexOf(pat)`, -1 being None). */
  function IndexOf(s: string, pat: string): (r: Option<nat>)
  {
    IndexOfFrom(s, pat, 0)
  }

  /** `s.includes(pat)`. */
  predicate Contains(s: string, pat: string)
  {
    IndexOf(s, pat).Some?
  }

  /** `includes` holds exactly when some occurrence exists. */
  lemma ContainsIff(s: string, pat: string)
    ensures Contains(s, pat) <==> exists i: nat :: OccursAt(s, pat, i)
  {
  }

  // ---------------------------------------------------------------------------------------
  // Replacing the first occurrence
  // ---------------------------------------------------------------------------------------

  /**
    The replacement text GetSubstitution builds for a string pattern (no capture groups):
    `$$` stands for `$`, `$&` for the matched text, `` $` `` for the text before the match
    and `$'` for the text after it; every other character is copied.
  */
  function Expand(rep: string, matched: string, before: string, after: string): (r: string)
    decreases |rep|
  {
    if |rep| >= 2 && rep[0] == '$' && rep[1] == '$' then "$" + Expand(rep[2..], matched, before, after)
    else if |rep| >= 2 && rep[0] == '$' && rep[1] == '&' then matched + Expand(rep[2..], matched, before, after)
    else if |rep| >= 2 && rep[0] == '$' && rep[1] == '`' then before + Expand(rep[2..], matched, before, after)
    else if |rep| >= 2 && rep[0] == '$' && rep[1] == '\'' then after + Expand(rep[2..], matched, before, after)
    else if rep == [] then []
    else [rep[0]] + Expand(rep[1..], matched, before, after)
  }

  /** A replacement text without `$` is copied unchanged. */
  lemma {:induction false} ExpandWithoutDollar(rep: string, matched: string, before: string, after: string)
    requires '$' !in rep
    ensures Expand(rep, matched, before, after) == rep
    decreases |rep|
  {
    if rep != [] {
      assert rep[0] != '$';
      assert '$' !in rep[1..] by {
        forall c | c in rep[1..] ensures c != '$' {
          assert c in rep;
        }
      }
      ExpandWithoutDollar(rep[1..], matched, before, after);
      assert rep == [rep[0]] + rep[1..];
    }
  }

  /**
    `s.replace(pat, rep)` exactly as JavaScript evaluates it for a string pattern: the first
    occurrence is replaced by the GetSubstitution expansion of `rep`.
  */
  function JsReplace(s: string, pat: string, rep: string): (r: string)
  {
    match IndexOf(s, pat)
    case None => s
    case Some(i) => s[..i] + Expand(rep, pat, s[..i], s[i + |pat|..]) + s[i + |pat|..]
  }

  /** The first occurrence of `pat` replaced by the literal text `rep`. */
  function ReplaceFirst(s: string, pat: string, rep: string): (r: string)
  {
    match IndexOf(s, pat)
    case None => s
    case Some(i) => s[..i] + rep + s[i + |pat|..]
  }

  /**
    When `pre` does not contain `pat`, and `pat` cannot overlap itself because its first
    character does not recur in it, the first occurrence in `pre + pat + post` is the one
    right after `pre`, and it alone is replaced.
  */
  lemma ReplaceFirstAfterPrefix(pre: string, pat: string, post: string, rep: string)
    requires |pat| > 0 && pat[0] !in pat[1..] && !Contains(pre, pat)
    ensures IndexOf(pre + pat + post, pat) == Some(|pre|)
    ensures ReplaceFirst(pre + pat + post, pat, rep) == pre + rep + post
  {
    var s := pre + pat + post;
    assert OccursAt(s, pat, |pre|) by {
      assert s[|pre|..|pre| + |pat|] == pat;
    }
    forall j: nat | j < |pre|
      ensures !OccursAt(s, pat, j)
    {
      if j + |pat| <= |pre| {
        assert pre[j..j + |pat|] == s[j..j + |pat|];
        assert !OccursAt(pre, pat, j);
      } else {
        var d := |pre| - j;
        assert pat[1..][d - 1] == pat[d];
        assert pat[d] != pat[0];
        assert s[j..j + |pat|][d] == s[|pre|] == pat[0];
      }
    }
    var r := IndexOf(s, pat);
    assert r.Some? && r.value == |pre|;
    assert s[..|pre|] == pre;
    assert s[|pre| + |pat|..] == post;
  }

  /** A replacement of "$&" puts back the matched text, so `replace` returns any text unchanged. */
  lemma JsReplaceMatchKeepsText(s: string, pat: string)
    ensures JsReplace(s, pat, "$&") == s
  {
  }

  /** With no `$` in the replacement, JavaScript's replace is the literal replacement. */
  lemma JsReplaceWithoutDollar(s: string, pat: string, rep: string)
    requires '$' !in rep
    ensures JsReplace(s, pat, rep) == ReplaceFirst(s, pat, rep)
  {
    var r := IndexOf(s, pat);
    if r.Some? {
      var i := r.value;
      ExpandWithoutDollar(rep, pat, s[..i], s[i + |pat|..]);
    }
  }

  /**
    A replacement text containing `$$` is not inserted literally: substituting "$$" for the
    only occurrence of "{x}" yields "$", where the literal replacement yields "$$".
  */
  lemma JsReplaceExpandsDollars()
    ensures JsReplace("{x}", "{x}", "$$") == "$"
    ensures ReplaceFirst("{x}", "{x}", "$$") == "$$"
  {
  }

  // ---------------------------------------------------------------------------------------
  // parseInt without a radix
  // ---------------------------------------------------------------------------------------

  /** The white space and line terminators that `parseInt` skips (ECMAScript StrWhiteSpaceChar). */
  predicate IsJsWhitespace(c: char)
  {
    c == '\t' || c == '\n' || c == '\U{B}' || c == '\U{C}' || c == '\r' || c == ' '
    || c == '\U{A0}' || c == '\U{1680}' || ('\U{2000}' <= c <= '\U{200A}')
    || c == '\U{2028}' || c == '\U{2029}' || c == '\U{202F}' || c == '\U{205F}'
    || c == '\U{3000}' || c == '\U{FEFF}'
  }

  /** `s` with its leading white space removed. */
  function TrimStart(s: string): (r: string)
    ensures |r| <= |s| && r == s[|s| - |r|..]
    ensures forall i :: 0 <= i < |s| - |r| ==> IsJsWhitespace(s[i])
    ensures r == [] || !IsJsWhitespace(r[0])
  {
    if s != [] && IsJsWhitespace(s[0]) then TrimStart(s[1..]) else s
  }

  /** The value of a character as a digit of radix up to 36 (0-9, then a-z or A-Z). */
  function DigitValue(c: char): Option<nat>
  {
    if '0' <= c <= '9' then Some(c as int - '0' as int)
    else if 'a' <= c <= 'z' then Some(c as int - 'a' as int + 10)
    else if 'A' <= c <= 'Z' then Some(c as int - 'A' as int + 10)
    else None
  }

  predicate IsDigit(c: char, radix: nat)
  {
    DigitValue(c).Some? && DigitValue(c).value < radix
  }

  /** Every character of `ds` is a digit of the radix. */
  predicate AllDigits(ds: string, radix: nat)
  {
    forall i :: 0 <= i < |ds| ==> IsDigit(ds[i], radix)
  }

  /** The length of the longest prefix of `s` made of digits of the radix. */
  function DigitRun(s: string, radix: nat): (n: nat)
    ensures n <= |s|
    ensures forall i :: 0 <= i < n ==> IsDigit(s[i], radix)
    ensures n < |s| ==> !IsDigit(s[n], radix)
  {
    if s != [] && IsDigit(s[0], radix) then 1 + DigitRun(s[1..], radix) else 0
  }

  /** The number the digit string `ds` denotes in the radix (most significant digit first). */
  function ValueOf(ds: string, radix: nat): int
    requires forall i :: 0 <= i < |ds| ==> IsDigit(ds[i], radix)
  {
    if ds == [] then 0
    else
      var init := ds[..|ds| - 1];
      assert forall i :: 0 <= i < |init| ==> IsDigit(init[i], radix) by {
        forall i | 0 <= i < |init| ensures IsDigit(init[i], radix) {
          assert init[i] == ds[i];
        }
      }
      assert IsDigit(ds[|ds| - 1], radix);
      ValueOf(init, radix) * radix + DigitValue(ds[|ds| - 1]).value
  }

  /**
    `parseInt(s)`: skip leading white space, take one optional sign, switch to radix 16 after
    a `0x` or `0X` prefix, then read the longest run of digits. No digit at all is NaN (None).
    A negative zero is returned as 0.
  */
  function ParseInt(s: string): Option<int>
  {
    ParseSigned(TrimStart(s))
  }

  /** parseInt after the leading white space: one optional sign, then the magnitude. */
  function ParseSigned(t: string): Option<int>
  {
    var negative := t != [] && t[0] == '-';
    var u := if t != [] && (t[0] == '-' || t[0] == '+') then t[1..] else t;
    match ParseMagnitude(u)
    case None => None
    case Some(m) => Some(if negative then -m else m)
  }

  /** The unsigned part of parseInt: an optional `0x` / `0X` prefix selects radix 16. */
  function ParseMagnitude(u: string): Option<int>
  {
    if |u| >= 2 && u[0] == '0' && (u[1] == 'x' || u[1] == 'X') then ParseDigits(u[2..], 16)
    else ParseDigits(u, 10)
  }

  /** The value of the longest digit prefix of `v`; None when `v` does not begin with a digit. */
  function ParseDigits(v: string, radix: nat): Option<int>
  {
    var n := DigitRun(v, radix);
    if n == 0 then None else Some(ValueOf(v[..n], radix))
  }

  // ---------------------------------------------------------------------------------------
  // Decimal numerals: the inverse of parseInt on natural numbers
  // ---------------------------------------------------------------------------------------

  function DecimalDigit(d: nat): char
    requires d < 10
  {
    ('0' as int + d) as char
  }

  /** The decimal numeral of `n`, without leading zeros. */
  function Decimal(n: nat): (r: string)
    ensures |r| > 0
    decreases n
  {
    if n < 10 then [DecimalDigit(n)] else Decimal(n / 10) + [DecimalDigit(n % 10)]
  }

  lemma {:induction false} DecimalDigits(n: nat)
    ensures forall i :: 0 <= i < |Decimal(n)| ==> '0' <= Decimal(n)[i] <= '9'
    ensures forall i :: 0 <= i < |Decimal(n)| ==> IsDigit(Decimal(n)[i], 10)
    decreases n
  {
    if n >= 10 {
      DecimalDigits(n / 10);
    }
  }

  lemma {:induction false} ValueOfDecimal(n: nat)
    ensures forall i :: 0 <= i < |Decimal(n)| ==> IsDigit(Decimal(n)[i], 10)
    ensures ValueOf(Decimal(n), 10) == n
    decreases n
  {
    DecimalDigits(n);
    if n >= 10 {
      ValueOfDecimal(n / 10);
      var d := Decimal(n);
      assert d[..|d| - 1] == Decimal(n / 10);
      assert DigitValue(d[|d| - 1]).value == n % 10;
    }
  }

  /** A digit run followed by a non-digit ends where the digits end. */
  lemma {:induction false} DigitRunOfDigits(ds: string, rest: string, radix: nat)
    requires forall i :: 0 <= i < |ds| ==> IsDigit(ds[i], radix)
    requires rest == [] || !IsDigit(rest[0], radix)
    ensures DigitRun(ds + rest, radix) == |ds|
    decreases |ds|
  {
    if ds != [] {
      DigitRunOfDigits(ds[1..], rest, radix);
      assert (ds + rest)[1..] == ds[1..] + rest;
    }
  }

  /**
    parseInt reads a run of decimal digits, leading zeros included: leading white space, one
    optional sign and any trailing text that does not begin with a decimal digit (nor, after
    a lone 0, with the `x` of a hexadecimal prefix) leave the digits' value unchanged.
  */
  lemma ParseIntDigits(ws: string, sign: string, ds: string, rest: string)
    requires forall i :: 0 <= i < |ws| ==> IsJsWhitespace(ws[i])
    requires sign == "" || sign == "+" || sign == "-"
    requires ds != [] && AllDigits(ds, 10)
    requires rest == [] || (!IsDigit(rest[0], 10) && !(ds == "0" && (rest[0] == 'x' || rest[0] == 'X')))
    ensures ParseInt(ws + sign + ds + rest) == Some(if sign == "-" then -ValueOf(ds, 10) else ValueOf(ds, 10))
  {
    var body := sign + (ds + rest);
    ParseSignedDigits(sign, ds, rest);
    assert body != [] && !IsJsWhitespace(body[0]) by {
      assert body[0] == if sign == "" then ds[0] else sign[0];
    }
    TrimStartSkips(ws, body);
    Regroup(ws, sign, ds, rest);
  }

  /** After the white space: one optional sign before a run of decimal digits. */
  lemma ParseSignedDigits(sign: string, ds: string, rest: string)
    requires sign == "" || sign == "+" || sign == "-"
    requires ds != [] && AllDigits(ds, 10)
    requires rest == [] || (!IsDigit(rest[0], 10) && !(ds == "0" && (rest[0] == 'x' || rest[0] == 'X')))
    ensures ParseSigned(sign + (ds + rest)) == Some(if sign == "-" then -ValueOf(ds, 10) else ValueOf(ds, 10))
  {
    var u := ds + rest;
    ParseMagnitudeDigits(ds, rest);
    assert u != [] && '0' <= u[0] <= '9' by {
      assert u[0] == ds[0] && IsDigit(ds[0], 10);
    }
    ParseSignedOf(sign, u, ValueOf(ds, 10));
  }

  lemma Regroup(a: string, b: string, c: string, d: string)
    ensures a + b + c + d == a + (b + (c + d))
  {
  }

  /** Leading zeros are decimal digits, not an octal prefix: "007" is 7. */
  lemma ParseIntLeadingZeros()
    ensures ParseInt("007") == Some(7)
  {
    assert "007"[..2] == "00" && "00"[..1] == "0" && "0"[..0] == "";
    assert ValueOf("0", 10) == 0;
    assert ValueOf("00", 10) == 0;
    assert ValueOf("007", 10) == 7;
    assert "007" == "" + "" + "007" + "";
    ParseIntDigits("", "", "007", "");
  }

  /** parseInt reads back the decimal numeral of `n`: the round trip from number to text and back. */
  lemma ParseIntDecimal(ws: string, sign: string, n: nat, rest: string)
    requires forall i :: 0 <= i < |ws| ==> IsJsWhitespace(ws[i])
    requires sign == "" || sign == "+" || sign == "-"
    requires rest == [] || (!IsDigit(rest[0], 10) && !(n == 0 && (rest[0] == 'x' || rest[0] == 'X')))
    ensures ParseInt(ws + sign + Decimal(n) + rest) == Some(if sign == "-" then -(n as int) else n)
  {
    ValueOfDecimal(n);
    assert Decimal(n) == "0" ==> n == 0;
    ParseIntDigits(ws, sign, Decimal(n), rest);
  }

  /** A sign in front of a magnitude that begins with a digit negates it or leaves it. */
  lemma ParseSignedOf(sign: string, u: string, m: int)
    requires sign == "" || sign == "+" || sign == "-"
    requires u != [] && '0' <= u[0] <= '9'
    requires ParseMagnitude(u) == Some(m)
    ensures ParseSigned(sign + u) == Some(if sign == "-" then -m else m)
  {
    if sign != "" {
      assert (sign + u)[1..] == u;
    } else {
      assert sign + u == u;
    }
  }

  /** The unsigned part of a run of decimal digits is read in radix 10 and yields its value. */
  lemma ParseMagnitudeDigits(ds: string, rest: string)
    requires ds != [] && AllDigits(ds, 10)
    requires rest == [] || (!IsDigit(rest[0], 10) && !(ds == "0" && (rest[0] == 'x' || rest[0] == 'X')))
    ensures ParseMagnitude(ds + rest) == Some(ValueOf(ds, 10))
  {
    var u := ds + rest;
    assert !(|u| >= 2 && u[0] == '0' && (u[1] == 'x' || u[1] == 'X')) by {
      if |ds| >= 2 {
        assert u[1] == ds[1] && IsDigit(ds[1], 10);
      } else if |u| >= 2 {
        assert u[1] == rest[0];
        assert u[0] == '0' ==> ds == "0";
      }
    }
    DigitRunOfDigits(ds, rest, 10);
    assert u[..|ds|] == ds;
  }

  /** The unsigned part of the decimal numeral of `n` yields `n`. */
  lemma ParseMagnitudeDecimal(n: nat, rest: string)
    requires rest == [] || (!IsDigit(rest[0], 10) && !(n == 0 && (rest[0] == 'x' || rest[0] == 'X')))
    ensures ParseMagnitude(Decimal(n) + rest) == Some(n)
  {
    ValueOfDecimal(n);
    assert Decimal(n) == "0" ==> n == 0;
    ParseMagnitudeDigits(Decimal(n), rest);
  }

  /** TrimStart removes exactly a white-space prefix before a non-white-space character. */
  lemma {:induction false} TrimStartSkips(ws: string, body: string)
    requires forall i :: 0 <= i < |ws| ==> IsJsWhitespace(ws[i])
    requires body != [] && !IsJsWhitespace(body[0])
    ensures TrimStart(ws + body) == body
    decreases |ws|
  {
    if ws == [] {
      assert ws + body == body;
    } else {
      assert (ws + body)[0] == ws[0] && IsJsWhitespace(ws[0]);
      assert (ws + body)[1..] == ws[1..] + body;
      TrimStartSkips(ws[1..], body);
    }
  }
}
