/** `parseExperienceValue` of apps/web/lib/csv-import.ts: the first number in a text, rounded. The number
    is read as the exact decimal it spells. */
module Experience {
  import opened Options
  import opened Text

  /** `.replace(",", ".")`: the first comma only. */
  function FirstCommaToPoint(s: string): (r: string)
    ensures |r| == |s|
  {
    var i := IndexOf(s, ',');
    if i == |s| then s else s[i := '.']
  }

  function SkipToDigit(s: string): string {
    if s != "" && !IsDigit(s[0]) then SkipToDigit(s[1..]) else s
  }

  /** The leading digits. */
  function Digits(s: string): (r: string)
    ensures AllDigits(r) && |r| <= |s| && r == s[..|r|]
    ensures |r| < |s| ==> !IsDigit(s[|r|])
  {
    if s != "" && IsDigit(s[0]) then [s[0]] + Digits(s[1..]) else ""
  }

  /** `(\d+(?:\.\d+)?)`: whole part and fraction digits of the first match. */
  function FirstNumber(s: string): Option<(string, string)> {
    var t := SkipToDigit(s);
    if t == "" then None
    else
      var whole := Digits(t);
      var rest := t[|whole|..];
      Some((whole, if rest != "" && rest[0] == '.' then Digits(rest[1..]) else ""))
  }

  /** `Math.round` of `whole.fraction`. */
  function Rounded(whole: string, fraction: string): nat
    requires AllDigits(whole) && AllDigits(fraction)
  {
    DecimalValue(whole) + if fraction != "" && DigitValue(fraction[0]) >= 5 then 1 else 0
  }

  lemma {:induction false} FirstNumberDigits(s: string)
    ensures match FirstNumber(s) case None => true case Some((w, f)) => AllDigits(w) && AllDigits(f)
  {
  }

  function ParseExperience(value: string): Option<nat> {
    FirstNumberDigits(FirstCommaToPoint(value));
    match FirstNumber(FirstCommaToPoint(value))
    case None => None
    case Some((whole, fraction)) => Some(Rounded(whole, fraction))
  }

  function Pow10(k: nat): nat {
    if k == 0 then 1 else 10 * Pow10(k - 1)
  }

  lemma TenTimes(a: int, p: int)
    ensures a * (10 * p) == 10 * (a * p)
  {
  }

  lemma Distribute(a: int, b: int, c: int)
    ensures (a + b) * c == a * c + b * c
  {
  }

  lemma AtLeastTimes(a: int, b: int, p: int)
    requires a <= b && 0 <= p
    ensures a * p <= b * p
  {
  }

  /** The first digit of a fraction tells on which side of the half it lies. */
  lemma {:induction false} FractionBounds(s: string)
    requires AllDigits(s) && s != ""
    ensures DigitValue(s[0]) * Pow10(|s| - 1) <= DecimalValue(s) < (DigitValue(s[0]) + 1) * Pow10(|s| - 1)
  {
    var d := DigitValue(s[0]);
    if |s| > 1 {
      FractionBounds(s[..|s| - 1]);
      TenTimes(d, Pow10(|s| - 2));
      TenTimes(d + 1, Pow10(|s| - 2));
    } else {
      assert s[..0] == "";
    }
  }

  /** The result lies within one half of the number read, and a half is rounded up: with `k` fraction digits, twice
      the distance, in units of 10 to the -k, is at most 10 to the k above and less than it below. */
  lemma RoundedWithinHalf(whole: string, fraction: string)
    requires AllDigits(whole) && AllDigits(fraction)
    ensures var unit: int := Pow10(|fraction|);
            var exact: int := DecimalValue(whole) * unit + DecimalValue(fraction);
            -unit < 2 * (Rounded(whole, fraction) * unit - exact) <= unit
  {
    hide DecimalValue;
    var unit: int := Pow10(|fraction|);
    var w := DecimalValue(whole);
    NoFraction();
    Distribute(w, Rounded(whole, fraction) - w, unit);
    if fraction != "" {
      FractionBounds(fraction);
      var half: int := Pow10(|fraction| - 1);
      var d := DigitValue(fraction[0]);
      assert unit == 10 * half;
      if d >= 5 {
        AtLeastTimes(5, d, half);
        AtLeastTimes(d + 1, 10, half);
      } else {
        AtLeastTimes(d + 1, 5, half);
      }
    }
  }

  lemma NoFraction()
    ensures DecimalValue("") == 0
  {
  }

  predicate NoDigits(s: string) {
    forall i :: 0 <= i < |s| ==> !IsDigit(s[i])
  }

  lemma {:induction false} NothingToSkip(s: string)
    ensures SkipToDigit(s) == "" <==> NoDigits(s)
  {
    if s != "" && !IsDigit(s[0]) {
      NothingToSkip(s[1..]);
      assert forall i :: 0 < i < |s| ==> s[i] == s[1..][i - 1];
    }
  }

  /** A text without digits is no number, and any other is one. */
  lemma NoNumber(s: string)
    ensures ParseExperience(s).None? <==> forall i :: 0 <= i < |s| ==> !('0' <= s[i] <= '9')
  {
    hide SkipToDigit, Digits, IndexOf;
    var t := FirstCommaToPoint(s);
    NothingToSkip(t);
    assert forall i :: 0 <= i < |s| ==> (IsDigit(t[i]) <==> IsDigit(s[i]));
  }

  predicate EndsNumber(s: string) {
    s != "" ==> !IsDigit(s[0]) && s[0] != '.' && s[0] != ','
  }

  lemma {:induction false} SkipPrefix(pre: string, rest: string)
    requires NoDigits(pre) && rest != "" && IsDigit(rest[0])
    ensures SkipToDigit(pre + rest) == rest
  {
    if pre == "" {
      assert pre + rest == rest;
    } else {
      assert (pre + rest)[1..] == pre[1..] + rest;
      SkipPrefix(pre[1..], rest);
    }
  }

  lemma {:induction false} DigitsPrefix(digits: string, rest: string)
    requires AllDigits(digits) && (rest != "" ==> !IsDigit(rest[0]))
    ensures Digits(digits + rest) == digits
  {
    if digits == "" {
      assert digits + rest == rest;
    } else {
      assert (digits + rest)[1..] == digits[1..] + rest;
      DigitsPrefix(digits[1..], rest);
    }
  }

  lemma IndexInFirst(a: string, b: string, c: char)
    ensures IndexOf(a + b, c) == if Free(a, c) then |a| + IndexOf(b, c) else IndexOf(a, c)
  {
    hide IndexOf;
    var i, j := IndexOf(a, c), IndexOf(b, c);
    assert Free(a, c) <==> i == |a| by {
      assert a[..|a|] == a;
    }
    if Free(a, c) {
      assert (a + b)[..|a| + j] == a + b[..j];
      IndexOfUnique(a + b, c, |a| + j);
    } else {
      assert (a + b)[..i] == a[..i];
      IndexOfUnique(a + b, c, i);
    }
  }

  /** The comma replaced in a text is the first part's, when it has one. */
  lemma CommaInFirst(a: string, b: string)
    ensures FirstCommaToPoint(a + b)
         == if Free(a, ',') then a + FirstCommaToPoint(b) else FirstCommaToPoint(a) + b
  {
    hide IndexOf;
    IndexInFirst(a, b, ',');
    assert Free(a, ',') ==> IndexOf(b, ',') <= |b|;
  }

  lemma PointKeepsDigits(s: string)
    ensures NoDigits(s) ==> NoDigits(FirstCommaToPoint(s))
    ensures EndsNumber(s) ==> EndsNumber(FirstCommaToPoint(s))
    ensures AllDigits(s) ==> Free(s, ',')
    ensures s != "" && !IsDigit(s[0]) ==> !IsDigit(FirstCommaToPoint(s)[0])
  {
  }

  lemma WholeFound(pre: string, digits: string, post: string)
    requires NoDigits(pre) && AllDigits(digits) && digits != ""
    requires post != "" ==> !IsDigit(post[0]) && post[0] != '.'
    ensures FirstNumber(pre + digits + post) == Some((digits, ""))
  {
    hide Digits, SkipToDigit;
    assert pre + digits + post == pre + (digits + post);
    SkipPrefix(pre, digits + post);
    DigitsPrefix(digits, post);
    assert (digits + post)[|digits|..] == post;
  }

  lemma FractionFound(pre: string, whole: string, fraction: string, post: string)
    requires NoDigits(pre) && AllDigits(whole) && whole != "" && AllDigits(fraction)
    requires post != "" ==> !IsDigit(post[0])
    ensures FirstNumber(pre + whole + "." + fraction + post) == Some((whole, fraction))
  {
    hide Digits, SkipToDigit;
    var rest := "." + (fraction + post);
    assert pre + whole + "." + fraction + post == pre + (whole + rest);
    SkipPrefix(pre, whole + rest);
    DigitsPrefix(whole, rest);
    assert (whole + rest)[|whole|..] == rest && rest[1..] == fraction + post;
    DigitsPrefix(fraction, post);
  }

  /** A printed natural number is found in any text around it: no digit before it, and no digit, point
      or comma right behind it ("4 years", "5+", "approx. 12"). */
  lemma PrintedNumberFound(pre: string, n: nat, post: string)
    requires NoDigits(pre) && EndsNumber(post)
    ensures ParseExperience(pre + Decimal(n) + post) == Some(n)
  {
    hide FirstNumber, FirstCommaToPoint, Decimal;
    var digits := Decimal(n);
    assert pre + digits + post == pre + (digits + post);
    CommaInFirst(pre, digits + post);
    CommaInFirst(digits, post);
    PointKeepsDigits(pre);
    PointKeepsDigits(digits);
    PointKeepsDigits(post);
    if Free(pre, ',') {
      assert pre + (digits + FirstCommaToPoint(post)) == pre + digits + FirstCommaToPoint(post);
      WholeFound(pre, digits, FirstCommaToPoint(post));
    } else {
      assert FirstCommaToPoint(pre) + (digits + post) == FirstCommaToPoint(pre) + digits + post;
      WholeFound(FirstCommaToPoint(pre), digits, post);
    }
  }

  lemma LeadingComma(s: string)
    ensures FirstCommaToPoint("," + s) == "." + s
  {
  }

  lemma TailPoint(comma: bool, fraction: string, post: string) returns (post': string)
    requires AllDigits(fraction) && (post != "" ==> !IsDigit(post[0]))
    ensures FirstCommaToPoint((if comma then "," else ".") + fraction + post) == "." + fraction + post'
    ensures post' != "" ==> !IsDigit(post'[0])
  {
    hide FirstCommaToPoint;
    if comma {
      post' := post;
      assert "," + fraction + post == "," + (fraction + post);
      LeadingComma(fraction + post);
      assert "." + (fraction + post) == "." + fraction + post;
    } else {
      PointKeepsDigits(post);
      post' := FirstCommaToPoint(post);
      CommaInFirst("." + fraction, post);
    }
  }

  lemma CommaUsedUp(pre: string, rest: string)
    requires NoDigits(pre) && !Free(pre, ',')
    ensures exists pre' :: NoDigits(pre') && FirstCommaToPoint(pre + rest) == pre' + rest
  {
    hide FirstCommaToPoint;
    CommaInFirst(pre, rest);
    PointKeepsDigits(pre);
  }

  lemma CommaUnused(pre: string, whole: string, rest: string)
    requires Free(pre, ',') && AllDigits(whole)
    ensures FirstCommaToPoint(pre + whole + rest) == pre + whole + FirstCommaToPoint(rest)
  {
    hide FirstCommaToPoint;
    CommaInFirst(pre + whole, rest);
  }

  /** A decimal number is read whole with a point or a comma, unless an earlier comma in the text has
      used up the one replacement: then its fraction is lost ("about, 4,9" reads 4). */
  lemma PrintedDecimalFound(pre: string, whole: string, comma: bool, fraction: string, post: string)
    requires NoDigits(pre) && AllDigits(whole) && whole != "" && AllDigits(fraction)
    requires post != "" ==> !IsDigit(post[0])
    ensures ParseExperience(pre + whole + (if comma then "," else ".") + fraction + post)
         == Some(Rounded(whole, if comma && !Free(pre, ',') then "" else fraction))
  {
    hide FirstNumber, FirstCommaToPoint, Rounded;
    var tail := (if comma then "," else ".") + fraction + post;
    assert pre + whole + (if comma then "," else ".") + fraction + post == pre + whole + tail == pre + (whole + tail);
    if !Free(pre, ',') {
      CommaUsedUp(pre, whole + tail);
      var pre' :| NoDigits(pre') && FirstCommaToPoint(pre + (whole + tail)) == pre' + (whole + tail);
      TailFound(pre', whole, comma, fraction, post);
    } else {
      CommaUnused(pre, whole, tail);
      var post' := TailPoint(comma, fraction, post);
      assert pre + whole + ("." + fraction + post') == pre + whole + "." + fraction + post';
      FractionFound(pre, whole, fraction, post');
    }
  }

  lemma TailFound(pre: string, whole: string, comma: bool, fraction: string, post: string)
    requires NoDigits(pre) && AllDigits(whole) && whole != "" && AllDigits(fraction)
    requires post != "" ==> !IsDigit(post[0])
    ensures FirstNumber(pre + (whole + ((if comma then "," else ".") + fraction + post)))
         == Some((whole, if comma then "" else fraction))
  {
    hide FirstNumber;
    var tail := (if comma then "," else ".") + fraction + post;
    assert pre + (whole + tail) == pre + whole + tail;
    if comma {
      WholeFound(pre, whole, tail);
    } else {
      assert pre + whole + "." + fraction + post == pre + whole + tail;
      FractionFound(pre, whole, fraction, post);
    }
  }

  lemma EarlierCommaCostsFraction()
    ensures ParseExperience("about, 4,9") == Some(4)
  {
    hide ParseExperience;
    PrintedDecimalFound("about, ", "4", true, "9", "");
    assert "about, " + "4" + "," + "9" + "" == "about, 4,9";
    assert "about, "[5] == ',';
    assert Rounded("4", "") == 4 by {
      assert "4"[..0] == "";
    }
  }
}
