/** Resource paths the pages build from their selectors, and the decimal
    rendering of integers that JavaScript template strings perform. */
module Paths {
  /** The explorer's `networkType` selector ('writers' | 'artists'). */
  datatype NetworkType = Writers | Artists

  /** The `method` selector ('first' | 'mode'). */
  datatype Method = First | Mode

  function TypeToken(t: NetworkType): string {
    match t
    case Writers => "writers"
    case Artists => "artists"
  }

  function MethodToken(m: Method): string {
    match m
    case First => "first"
    case Mode => "mode"
  }

  function DigitChar(d: nat): char
    requires d < 10
  {
    "0123456789"[d]
  }

  function DigitValue(c: char): nat {
    if '0' <= c <= '9' then (c as int - '0' as int) as nat else 0
  }

  predicate IsDigit(c: char) {
    '0' <= c <= '9'
  }

  /** Reading a digit back gives its value. */
  lemma DigitRoundTrip(d: nat)
    requires d < 10
    ensures DigitValue(DigitChar(d)) == d
  {
  }

  /** The decimal digits of `n`, most significant first, without leading
      zeros: how a template string renders a non-negative integer. */
  function NatToString(n: nat): (r: string)
    ensures |r| >= 1
    ensures forall i :: 0 <= i < |r| ==> IsDigit(r[i])
    ensures |r| > 1 ==> r[0] != '0'
  {
    if n < 10 then [DigitChar(n)] else NatToString(n / 10) + [DigitChar(n % 10)]
  }

  /** The value of a string of decimal digits. */
  function DigitsValue(s: string): nat {
    if s == [] then 0 else DigitsValue(s[..|s| - 1]) * 10 + DigitValue(s[|s| - 1])
  }

  /** Reading the digits back gives the number: the rendering loses nothing. */
  lemma {:induction false} NatToStringRoundTrip(n: nat)
    ensures DigitsValue(NatToString(n)) == n
  {
    if n < 10 {
      DigitRoundTrip(n);
    } else {
      var s := NatToString(n);
      var init := NatToString(n / 10);
      assert s[..|s| - 1] == init && s[|s| - 1] == DigitChar(n % 10);
      NatToStringRoundTrip(n / 10);
      DigitRoundTrip(n % 10);
    }
  }

  /** Distinct naturals render as distinct strings. */
  lemma NatToStringInjective(m: nat, n: nat)
    requires NatToString(m) == NatToString(n)
    ensures m == n
  {
    NatToStringRoundTrip(m);
    NatToStringRoundTrip(n);
  }

  /** How a template string renders any integer: a minus sign before the
      digits of `-i` when `i` is negative. */
  function IntToString(i: int): (r: string)
    ensures |r| >= 1
    ensures (r[0] == '-') <==> i < 0
  {
    if i < 0 then "-" + NatToString(-i) else NatToString(i)
  }

  /** After the minus sign come the digits of the magnitude. */
  lemma MinusDigits(i: int)
    requires i < 0
    ensures IntToString(i)[1..] == NatToString(-i)
  {
    var a := NatToString(-i);
    assert ("-" + a)[1..] == a;
  }

  /** Distinct integers render as distinct strings. */
  lemma {:induction false} IntToStringInjective(i: int, j: int)
    requires IntToString(i) == IntToString(j)
    ensures i == j
  {
    var s := IntToString(i);
    assert (i < 0) == (j < 0) by {
      assert (s[0] == '-') <==> i < 0;
      assert (s[0] == '-') <==> j < 0;
    }
    if i < 0 {
      MinusDigits(i);
      MinusDigits(j);
      NatToStringInjective(-i, -j);
    } else {
      NatToStringInjective(i, j);
    }
  }

  /** The dataset file: under `data/` of the base URL, named by network
      type, method and decade. */
  function DataPath(base: string, t: NetworkType, m: Method, decade: string): string {
    base + "data/" + TypeToken(t) + "-network-" + MethodToken(m) + "-" + decade + ".json"
  }

  /** The word-cloud image of community `c`: under `wordclouds/` of the base
      URL, in the method's folder, named by decade and community. */
  function WordCloudPath(base: string, m: Method, decade: string, c: int): string {
    base + "wordclouds/" + MethodToken(m) + "/" + decade + "_comm" + IntToString(c) + "_tfidf.png"
  }

  /** Two concatenations with equally long right parts are equal only part
      by part. */
  lemma ConcatCancel(a1: string, b1: string, a2: string, b2: string)
    requires a1 + b1 == a2 + b2 && |b1| == |b2|
    ensures a1 == a2 && b1 == b2
  {
    assert a1 == (a1 + b1)[..|a1|];
    assert a2 == (a2 + b2)[..|a2|];
    assert b1 == (a1 + b1)[|a1|..];
    assert b2 == (a2 + b2)[|a2|..];
  }

  /** The data path determines the dataset: two keys with the same base give
      the same path exactly when network type, method and decade agree
      (decade ids all have the same length, `Decades.IndexOfId`). */
  lemma {:induction false} DataPathInjective(base: string, t1: NetworkType, m1: Method, d1: string,
                                                           t2: NetworkType, m2: Method, d2: string)
    requires |d1| == |d2|
    ensures DataPath(base, t1, m1, d1) == DataPath(base, t2, m2, d2) <==>
            t1 == t2 && m1 == m2 && d1 == d2
  {
    if DataPath(base, t1, m1, d1) == DataPath(base, t2, m2, d2) {
      var x1, x2 := base + "data/", base + "data/";
      var y1, y2 := x1 + TypeToken(t1), x2 + TypeToken(t2);
      var z1, z2 := y1 + "-network-", y2 + "-network-";
      var u1, u2 := z1 + MethodToken(m1), z2 + MethodToken(m2);
      var v1, v2 := u1 + "-", u2 + "-";
      var w1, w2 := v1 + d1, v2 + d2;
      assert w1 + ".json" == w2 + ".json";
      ConcatCancel(w1, ".json", w2, ".json");
      ConcatCancel(v1, d1, v2, d2);
      ConcatCancel(u1, "-", u2, "-");
      assert |z1| == |z2|;
      ConcatCancel(z1, MethodToken(m1), z2, MethodToken(m2));
      ConcatCancel(y1, "-network-", y2, "-network-");
      ConcatCancel(x1, TypeToken(t1), x2, TypeToken(t2));
      assert m1 == m2 by {
        assert MethodToken(m1) == MethodToken(m2);
        assert MethodToken(First) != MethodToken(Mode);
      }
      assert t1 == t2 by {
        assert TypeToken(t1) == TypeToken(t2);
        assert TypeToken(Writers)[0] != TypeToken(Artists)[0];
      }
    }
  }

  /** The word-cloud path determines the cloud: with one base, two paths are
      equal exactly when method, decade and community agree (for decade ids,
      which all have the same length). */
  lemma {:induction false} WordCloudPathInjective(base: string, m1: Method, d1: string, c1: int,
                                                                m2: Method, d2: string, c2: int)
    requires |d1| == |d2|
    ensures WordCloudPath(base, m1, d1, c1) == WordCloudPath(base, m2, d2, c2) <==>
            m1 == m2 && d1 == d2 && c1 == c2
  {
    if WordCloudPath(base, m1, d1, c1) == WordCloudPath(base, m2, d2, c2) {
      var i1, i2 := IntToString(c1), IntToString(c2);
      var x := base + "wordclouds/";
      var y1, y2 := x + MethodToken(m1), x + MethodToken(m2);
      var z1, z2 := y1 + "/", y2 + "/";
      var u1, u2 := z1 + d1, z2 + d2;
      var v1, v2 := u1 + "_comm", u2 + "_comm";
      var w1, w2 := v1 + i1, v2 + i2;
      assert w1 + "_tfidf.png" == w2 + "_tfidf.png";
      ConcatCancel(w1, "_tfidf.png", w2, "_tfidf.png");
      assert m1 == m2 by {
        assert w1[|x|] == y1[|x|] == MethodToken(m1)[0];
        assert w2[|x|] == y2[|x|] == MethodToken(m2)[0];
        assert MethodToken(First)[0] != MethodToken(Mode)[0];
      }
      assert |i1| == |i2|;
      ConcatCancel(v1, i1, v2, i2);
      ConcatCancel(u1, "_comm", u2, "_comm");
      ConcatCancel(z1, d1, z2, d2);
      IntToStringInjective(c1, c2);
    }
  }
}
