/**
 * The few pieces of PHP string semantics the filter controller relies on:
 * the decimal rendering of an integer when it is concatenated into a string,
 * `empty()` on a string, and the "|"-joined id lists built by the location
 * option builder.
 */
module PhpStrings {
  import opened Wrappers

  predicate IsDigit(c: char) {
    '0' <= c <= '9'
  }

  predicate AllDigits(s: string) {
    forall i :: 0 <= i < |s| ==> IsDigit(s[i])
  }

  function DigitChar(d: nat): (c: char)
    requires d < 10
    ensures IsDigit(c)
    ensures c as int - '0' as int == d
  {
    (d + '0' as int) as char
  }

  function DigitValue(c: char): (d: nat)
    requires IsDigit(c)
    ensures d < 10
    ensures DigitChar(d) == c
  {
    c as int - '0' as int
  }

  /** Decimal rendering of a non-negative integer, without leading zeros. */
  function NatToString(n: nat): (s: string)
    ensures |s| > 0
    ensures AllDigits(s)
    ensures s[0] == '0' <==> n == 0
    ensures |s| == 1 <==> n < 10
    decreases n
  {
    if n < 10 then [DigitChar(n)] else NatToString(n / 10) + [DigitChar(n % 10)]
  }

  /** Value of a non-empty string of decimal digits. */
  function DigitsValue(s: string): nat
    requires AllDigits(s)
    decreases |s|
  {
    if |s| == 0 then 0 else DigitsValue(s[..|s| - 1]) * 10 + DigitValue(s[|s| - 1])
  }

  /** A decimal numeral as PHP writes one: digits only, no leading zero. */
  predicate Canonical(s: string) {
    |s| > 0 && AllDigits(s) && (s[0] == '0' ==> |s| == 1)
  }

  /** Reads back a decimal rendering; `None` for anything that is not one. */
  function ParseNat(s: string): Option<nat> {
    if Canonical(s) then Some(DigitsValue(s)) else None
  }

  /** Digits that do not start with a zero spell a positive number. */
  lemma {:induction false} DigitsValuePositive(s: string)
    requires |s| > 0 && AllDigits(s) && s[0] != '0'
    ensures DigitsValue(s) > 0
    decreases |s|
  {
    if |s| > 1 {
      var p := s[..|s| - 1];
      assert p[0] == s[0];
      DigitsValuePositive(p);
    }
  }

  /** The only string that reads back as `n` is the rendering of `n`. */
  lemma {:induction false} ParseNatExact(s: string)
    ensures ParseNat(s).Some? ==> s == NatToString(ParseNat(s).value)
    decreases |s|
  {
    if Canonical(s) {
      var d := DigitValue(s[|s| - 1]);
      if |s| == 1 {
        assert s[..|s| - 1] == [];
        assert DigitsValue(s) == d;
        assert s == [DigitChar(d)];
      } else {
        var p := s[..|s| - 1];
        assert p[0] == s[0] && s[0] != '0';
        DigitsValuePositive(p);
        ParseNatExact(p);
        var n := DigitsValue(s);
        assert n == DigitsValue(p) * 10 + d;
        assert n / 10 == DigitsValue(p) && n % 10 == d;
        assert s == p + [s[|s| - 1]];
      }
    }
  }

  lemma {:induction false} NatToStringRoundTrip(n: nat)
    ensures ParseNat(NatToString(n)) == Some(n)
    decreases n
  {
    var s := NatToString(n);
    if n < 10 {
      assert s[..|s| - 1] == [];
    } else {
      NatToStringRoundTrip(n / 10);
      assert s[..|s| - 1] == NatToString(n / 10);
      assert DigitValue(s[|s| - 1]) == n % 10;
    }
    assert DigitsValue(s) == n;
  }

  /** PHP's conversion of an int to a string (`'…'.$id`). */
  function IntToString(i: int): (s: string)
    ensures |s| > 0
    ensures '|' !in s
    ensures i >= 0 <==> IsDigit(s[0])
  {
    if i < 0 then "-" + NatToString(-i) else NatToString(i)
  }

  lemma IntToStringInjective(a: int, b: int)
    requires IntToString(a) == IntToString(b)
    ensures a == b
  {
    if a < 0 {
      assert IntToString(a)[1..] == NatToString(-a);
      assert IntToString(b)[1..] == NatToString(-b);
      NatToStringRoundTrip(-a);
      NatToStringRoundTrip(-b);
    } else {
      NatToStringRoundTrip(a);
      NatToStringRoundTrip(b);
    }
  }

  /** PHP's `empty()` on a string: true for "" and for "0". */
  predicate PhpEmpty(s: string) {
    s == "" || s == "0"
  }

  /**
   * The id list of one locality as `getLocations` accumulates it: the first id
   * alone, every later id appended as "|" followed by its decimal form.
   */
  function JoinIds(ids: seq<int>): (s: string)
    ensures |ids| > 0 <==> |s| > 0
    decreases |ids|
  {
    if |ids| == 0 then ""
    else if |ids| == 1 then IntToString(ids[0])
    else JoinIds(ids[..|ids| - 1]) + "|" + IntToString(ids[|ids| - 1])
  }

  lemma JoinIdsAppend(ids: seq<int>, x: int)
    requires |ids| > 0
    ensures JoinIds(ids + [x]) == JoinIds(ids) + "|" + IntToString(x)
  {
    assert (ids + [x])[..|ids|] == ids;
  }

  /** Index of the last "|" in `s`, or -1 when there is none. */
  function LastBar(s: string): (i: int)
    ensures -1 <= i < |s|
    decreases |s|
  {
    if |s| == 0 then -1
    else if s[|s| - 1] == '|' then |s| - 1
    else LastBar(s[..|s| - 1])
  }

  lemma {:induction false} LastBarOf(p: string, q: string)
    requires '|' !in q
    ensures LastBar(p + "|" + q) == |p|
    decreases |q|
  {
    if |q| > 0 {
      var s := p + "|" + q;
      assert s[..|s| - 1] == p + "|" + q[..|q| - 1];
      assert s[|s| - 1] == q[|q| - 1];
      LastBarOf(p, q[..|q| - 1]);
    }
  }

  /** Splitting a string at its last "|" is unique. */
  lemma SplitAtLastBar(p: string, q: string, p': string, q': string)
    requires '|' !in q && '|' !in q'
    requires p + "|" + q == p' + "|" + q'
    ensures p == p' && q == q'
  {
    var s := p + "|" + q;
    LastBarOf(p, q);
    LastBarOf(p', q');
    assert p == s[..|p|] == p';
    assert q == s[|p| + 1..] == q';
  }

  /** Distinct id lists never join to the same string. */
  lemma {:induction false} JoinIdsInjective(a: seq<int>, b: seq<int>)
    ensures JoinIds(a) == JoinIds(b) ==> a == b
    decreases |a| + |b|
  {
    if JoinIds(a) == JoinIds(b) && |a| > 0 && |b| > 0 {
      if |a| == 1 && |b| == 1 {
        IntToStringInjective(a[0], b[0]);
      } else if |a| == 1 {
        JoinIdsOneVsMany(a, b);
      } else if |b| == 1 {
        JoinIdsOneVsMany(b, a);
      } else {
        JoinIdsLastStep(a, b);
        JoinIdsInjective(a[..|a| - 1], b[..|b| - 1]);
        SameInitAndLast(a, b);
      }
    }
  }

  lemma SameInitAndLast(a: seq<int>, b: seq<int>)
    requires |a| > 0 && |b| > 0
    requires a[..|a| - 1] == b[..|b| - 1] && a[|a| - 1] == b[|b| - 1]
    ensures a == b
  {
    assert a == a[..|a| - 1] + [a[|a| - 1]];
    assert b == b[..|b| - 1] + [b[|b| - 1]];
  }

  lemma JoinIdsOneVsMany(a: seq<int>, b: seq<int>)
    requires |a| == 1 && |b| >= 2
    ensures JoinIds(a) != JoinIds(b)
  {
    JoinIdsHasBar(b);
    assert JoinIds(a) == IntToString(a[0]);
  }

  /** A join of two or more ids contains a "|"; a single id's rendering does not. */
  lemma JoinIdsHasBar(ids: seq<int>)
    requires |ids| >= 2
    ensures '|' in JoinIds(ids)
  {
    var p := JoinIds(ids[..|ids| - 1]);
    assert JoinIds(ids)[|p|] == '|';
  }

  /** Equal joins of two or more ids agree on the last id and on the join before it. */
  lemma JoinIdsLastStep(a: seq<int>, b: seq<int>)
    requires |a| >= 2 && |b| >= 2
    ensures JoinIds(a) == JoinIds(b) ==>
              JoinIds(a[..|a| - 1]) == JoinIds(b[..|b| - 1]) && a[|a| - 1] == b[|b| - 1]
  {
    if JoinIds(a) == JoinIds(b) {
      var x, y := a[|a| - 1], b[|b| - 1];
      SplitAtLastBar(JoinIds(a[..|a| - 1]), IntToString(x), JoinIds(b[..|b| - 1]), IntToString(y));
      IntToStringInjective(x, y);
    }
  }
}
