/**
 The text helpers of utils/utils.py: `get_int_from_text`, which keeps the
 decimal digits of a string and reads them as one integer, and
 `get_lifull_url_from_house_id`, which builds a listing's detail-page URL.
 */
module TextUtils {
  import opened Values

  /**
   A character matched by `\d` in Python 3's `re`. The model covers the ASCII
   digits and the full-width digits U+FF10..U+FF19 used on Japanese pages.
   */
  predicate IsDigit(c: char)
  {
    '0' <= c <= '9' || '０' <= c <= '９'
  }

  function DigitValue(c: char): (d: nat)
    requires IsDigit(c)
    ensures d < 10
  {
    if '0' <= c <= '9' then c as int - '0' as int else c as int - '０' as int
  }

  predicate AllDigits(s: string)
  {
    forall i :: 0 <= i < |s| ==> IsDigit(s[i])
  }

  /** `''.join(re.findall(r'\d+', s))`: the digits of `s`, in order. */
  function Digits(s: string): (d: string)
    ensures AllDigits(d)
    ensures |d| <= |s|
  {
    if s == [] then [] else (if IsDigit(s[0]) then [s[0]] else []) + Digits(s[1..])
  }

  /** `int(ds)` for a string of decimal digits. */
  function DecimalValue(ds: string): nat
    requires AllDigits(ds)
  {
    if ds == [] then 0 else DecimalValue(ds[..|ds| - 1]) * 10 + DigitValue(ds[|ds| - 1])
  }

  /**
   `get_int_from_text(item)`: `None` unless `item` is a string; otherwise the
   integer spelled by its digits, or 0 when it has none.
   */
  function GetIntFromText(item: Value): (r: Option<int>)
    ensures r.Some? <==> item.Str?
    ensures r.Some? ==> r.value >= 0
    ensures item.Str? && (forall i :: 0 <= i < |item.s| ==> !IsDigit(item.s[i])) ==> r == Some(0)
  {
    match item
    case Str(s) =>
      var parsed := Digits(s);
      NoDigits(s);
      if parsed == [] then Some(0) else Some(DecimalValue(parsed))
    case _ => None
  }

  lemma {:induction false} NoDigits(s: string)
    ensures (forall i :: 0 <= i < |s| ==> !IsDigit(s[i])) ==> Digits(s) == []
  {
    if s != [] {
      NoDigits(s[1..]);
    }
  }

  lemma {:induction false} DigitsAppend(a: string, b: string)
    ensures Digits(a + b) == Digits(a) + Digits(b)
  {
    if a == [] {
      assert a + b == b;
    } else {
      var head := if IsDigit(a[0]) then [a[0]] else [];
      assert (a + b)[0] == a[0];
      assert (a + b)[1..] == a[1..] + b;
      assert Digits(a + b) == head + Digits(a[1..] + b);
      DigitsAppend(a[1..], b);
      assert Digits(a) == head + Digits(a[1..]);
    }
  }

  /** Inserting a character that is not a digit anywhere in a string leaves its parsed value unchanged. */
  lemma NonDigitIrrelevant(a: string, c: char, b: string)
    requires !IsDigit(c)
    ensures GetIntFromText(Str(a + [c] + b)) == GetIntFromText(Str(a + b))
  {
    DigitsAppend(a, [c]);
    DigitsAppend(a + [c], b);
    DigitsAppend(a, b);
    assert [c][1..] == [];
    assert Digits([c]) == [];
    assert Digits(a + [c] + b) == Digits(a + b);
  }

  /**
   Reading a string left to right: the empty string gives 0, a digit shifts the
   value so far one decimal place and adds the digit's value, and any other
   character leaves it as it is. Together these fix the result for every string,
   leading zeros and full-width digits included.
   */
  lemma GetIntFromTextSnoc(s: string, c: char)
    ensures GetIntFromText(Str([])) == Some(0)
    ensures GetIntFromText(Str(s + [c])) ==
            Some(if IsDigit(c) then GetIntFromText(Str(s)).value * 10 + DigitValue(c) else GetIntFromText(Str(s)).value)
  {
    var d := Digits(s);
    DigitsOfSnoc(s, c);
    GetIntIsDecimal(s);
    GetIntIsDecimal(s + [c]);
    if IsDigit(c) {
      DecimalSnoc(d, c);
    } else {
      assert d + [] == d;
    }
  }

  /** The parsed value is the decimal value of the digits, which is 0 when there are none. */
  lemma GetIntIsDecimal(s: string)
    ensures GetIntFromText(Str(s)) == Some(DecimalValue(Digits(s)))
  {
  }

  lemma DigitsOfSnoc(s: string, c: char)
    ensures Digits(s + [c]) == Digits(s) + (if IsDigit(c) then [c] else [])
  {
    DigitsAppend(s, [c]);
    DigitsCons(c, []);
    assert [c] + [] == [c];
  }

  /** A leading zero adds nothing: `"0123"` parses to 123. */
  lemma LeadingZeroExample()
    ensures GetIntFromText(Str("0123")) == Some(123)
  {
    GetIntFromTextSnoc([], '0');
    assert [] + ['0'] == "0";
    GetIntFromTextSnoc("0", '1');
    assert "0" + ['1'] == "01";
    GetIntFromTextSnoc("01", '2');
    assert "01" + ['2'] == "012";
    GetIntFromTextSnoc("012", '3');
    assert "012" + ['3'] == "0123";
  }

  /** `str(n)` for a non-negative integer. */
  function NatToString(n: nat): (s: string)
    ensures s != []
    ensures forall i :: 0 <= i < |s| ==> '0' <= s[i] <= '9'
  {
    if n < 10 then [('0' as int + n) as char]
    else NatToString(n / 10) + [('0' as int + n % 10) as char]
  }

  /** `str(i)` for any integer. */
  function IntToString(i: int): string
  {
    if i < 0 then "-" + NatToString(-i) else NatToString(i)
  }

  lemma {:induction false} DigitsOfDigitString(s: string)
    requires AllDigits(s)
    ensures Digits(s) == s
  {
    if s != [] {
      DigitsOfDigitString(s[1..]);
    }
  }

  lemma {:induction false} DecimalOfNatToString(n: nat)
    ensures DecimalValue(NatToString(n)) == n
  {
    if n >= 10 {
      DecimalOfNatToString(n / 10);
      var s := NatToString(n);
      assert s[..|s| - 1] == NatToString(n / 10);
    }
  }

  /** Parsing the decimal rendering of a non-negative integer gives the integer back. */
  lemma ReparseDecimal(n: nat)
    ensures GetIntFromText(Str(NatToString(n))) == Some(n)
  {
    DigitsOfDigitString(NatToString(n));
    DecimalOfNatToString(n);
  }

  /** Reparsing the rendering of any parsed result reproduces that result. */
  lemma ReparseResult(s: string)
    ensures GetIntFromText(Str(NatToString(GetIntFromText(Str(s)).value))) == GetIntFromText(Str(s))
  {
    ReparseDecimal(GetIntFromText(Str(s)).value);
  }

  /** A price label such as `1,234万円` parses as 1234. */
  lemma PriceLabelExample()
    ensures GetIntFromText(Str("1,234万円")) == Some(1234)
  {
    PriceLabelDigits();
    DecimalOf1234();
  }

  lemma PriceLabelDigits()
    ensures Digits("1,234万円") == ['1', '2', '3', '4']
  {
    var t0: string := [];
    var t1 := ['円'] + t0;
    var t2 := ['万'] + t1;
    var t3 := ['4'] + t2;
    var t4 := ['3'] + t3;
    var t5 := ['2'] + t4;
    var t6 := [','] + t5;
    var t7 := ['1'] + t6;
    DigitsCons('円', t0);
    DigitsCons('万', t1);
    DigitsCons('4', t2);
    DigitsCons('3', t3);
    DigitsCons('2', t4);
    DigitsCons(',', t5);
    DigitsCons('1', t6);
    assert Digits(t2) == [];
    assert Digits(t7) == ['1', '2', '3', '4'];
    assert t7 == "1,234万円";
  }

  lemma DecimalOf1234()
    ensures AllDigits(['1', '2', '3', '4'])
    ensures DecimalValue(['1', '2', '3', '4']) == 1234
  {
    DecimalSnoc([], '1');
    assert [] + ['1'] == ['1'];
    assert DecimalValue(['1']) == 1;
    DecimalSnoc(['1'], '2');
    assert ['1'] + ['2'] == ['1', '2'];
    assert DecimalValue(['1', '2']) == 12;
    DecimalSnoc(['1', '2'], '3');
    assert ['1', '2'] + ['3'] == ['1', '2', '3'];
    assert DecimalValue(['1', '2', '3']) == 123;
    DecimalSnoc(['1', '2', '3'], '4');
    assert ['1', '2', '3'] + ['4'] == ['1', '2', '3', '4'];
  }

  lemma DigitsCons(c: char, t: string)
    ensures Digits([c] + t) == (if IsDigit(c) then [c] else []) + Digits(t)
  {
    assert ([c] + t)[1..] == t;
  }

  lemma DecimalSnoc(ds: string, c: char)
    requires AllDigits(ds) && IsDigit(c)
    ensures AllDigits(ds + [c])
    ensures DecimalValue(ds + [c]) == DecimalValue(ds) * 10 + DigitValue(c)
  {
    assert (ds + [c])[..|ds|] == ds;
  }

  const UrlPrefix: string := "https://www.homes.co.jp/mansion/b-"
  const UrlSuffix: string := "/?iskks=1"

  /** `get_lifull_url_from_house_id(house_id)` */
  function LifullUrl(houseId: int): string
  {
    UrlPrefix + IntToString(houseId) + UrlSuffix
  }

  /** Reads an optional `-` followed by one or more ASCII digits, as `int()` does on such text. */
  function ParseInt(s: string): Option<int>
  {
    if s != [] && s[0] == '-' then
      if |s| > 1 && AsciiDigits(s[1..]) then Some(0 - DecimalValue(s[1..])) else None
    else if s != [] && AsciiDigits(s) then Some(DecimalValue(s))
    else None
  }

  predicate AsciiDigits(s: string)
  {
    forall i :: 0 <= i < |s| ==> '0' <= s[i] <= '9'
  }

  /** The house id a detail-page URL names, when the URL has the shape `LifullUrl` builds. */
  function HouseIdFromUrl(u: string): Option<int>
  {
    if |u| >= |UrlPrefix| + |UrlSuffix| && u[..|UrlPrefix|] == UrlPrefix && u[|u| - |UrlSuffix|..] == UrlSuffix
    then ParseInt(u[|UrlPrefix|..|u| - |UrlSuffix|])
    else None
  }

  /** The URL built for a house id names that house id. */
  lemma UrlRoundTrip(houseId: int)
    ensures HouseIdFromUrl(LifullUrl(houseId)) == Some(houseId)
  {
    var mid := IntToString(houseId);
    SplitThree(UrlPrefix, mid, UrlSuffix);
    ParseIntToString(houseId);
  }

  /** The three parts of a concatenation can be cut back out of it. */
  lemma SplitThree(p: string, m: string, q: string)
    ensures var u := p + m + q;
            && |u| == |p| + |m| + |q|
            && u[..|p|] == p
            && u[|u| - |q|..] == q
            && u[|p|..|u| - |q|] == m
  {
  }

  /** `int(str(i))` is `i`. */
  lemma ParseIntToString(i: int)
    ensures ParseInt(IntToString(i)) == Some(i)
  {
    if i < 0 {
      ParseNegativeToString(-i);
    } else {
      ParseNatToString(i);
    }
  }

  lemma ParseNegativeToString(n: nat)
    requires n > 0
    ensures ParseInt(IntToString(-(n as int))) == Some(-(n as int))
  {
    var t := NatToString(n);
    assert IntToString(-(n as int)) == "-" + t;
    DecimalOfNatToString(n);
    ParseNegative(t);
  }

  lemma ParseNatToString(n: nat)
    ensures ParseInt(IntToString(n)) == Some(n)
  {
    var t := NatToString(n);
    assert IntToString(n) == t;
    DecimalOfNatToString(n);
    ParseNonNegative(t);
  }

  lemma ParseNegative(t: string)
    requires t != [] && AsciiDigits(t)
    ensures ParseInt("-" + t) == Some(0 - DecimalValue(t))
  {
    assert ("-" + t)[1..] == t;
  }

  lemma ParseNonNegative(t: string)
    requires t != [] && AsciiDigits(t)
    ensures ParseInt(t) == Some(DecimalValue(t))
  {
    assert '0' <= t[0] <= '9';
  }

  /** Any URL from which a house id is read is exactly the URL built for some spelling of it. */
  lemma UrlShape(u: string)
    requires HouseIdFromUrl(u).Some?
    ensures exists mid :: u == UrlPrefix + mid + UrlSuffix && ParseInt(mid) == HouseIdFromUrl(u)
  {
    var mid := u[|UrlPrefix|..|u| - |UrlSuffix|];
    assert u == u[..|UrlPrefix|] + mid + u[|u| - |UrlSuffix|..];
  }
}
