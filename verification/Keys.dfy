/** Composite database keys with zero-padded decimals, and the order they are scanned in. */
module Keys {
  import opened Prelude
  import opened Order

  function Digit(d: nat): char
    requires d < 10
  {
    (48 + d) as char
  }

  /** The last `width` decimal digits, zero-padded on the left. */
  function Padded(n: nat, width: nat): (s: string)
    ensures |s| == width
  {
    if width == 0 then "" else Padded(n / 10, width - 1) + [Digit(n % 10)]
  }

  function Pow10(width: nat): nat {
    if width == 0 then 1 else 10 * Pow10(width - 1)
  }

  lemma TwentyDigitsFit(n: u64)
    ensures n < Pow10(20)
  {
    assert Pow10(5) == 100_000;
    assert Pow10(10) == 10_000_000_000;
    assert Pow10(15) == 1_000_000_000_000_000;
  }

  lemma {:induction false} LessAppend(a: string, b: string, s: string, t: string)
    requires |a| == |b|
    ensures Less(a + s, b + t) <==> Less(a, b) || (a == b && Less(s, t))
  {
    if a == "" {
      assert a + s == s && b + t == t;
    } else {
      assert (a + s)[1..] == a[1..] + s && (b + t)[1..] == b[1..] + t;
      assert a == [a[0]] + a[1..] && b == [b[0]] + b[1..];
      LessAppend(a[1..], b[1..], s, t);
    }
  }

  /** Padded decimals are ordered lexicographically exactly as the numbers, and are injective. */
  lemma {:induction false} PaddedOrder(a: nat, b: nat, width: nat)
    requires a < Pow10(width) && b < Pow10(width)
    ensures Less(Padded(a, width), Padded(b, width)) <==> a < b
    ensures Padded(a, width) == Padded(b, width) <==> a == b
  {
    if width != 0 {
      PaddedOrder(a / 10, b / 10, width - 1);
      var x, y := Padded(a / 10, width - 1), Padded(b / 10, width - 1);
      var s, t := [Digit(a % 10)], [Digit(b % 10)];
      LessAppend(x, y, s, t);
      assert Less(s, t) <==> s[0] < t[0];
      assert (x + s)[..width - 1] == x && (y + t)[..width - 1] == y;
      assert (x + s)[width - 1] == s[0] && (y + t)[width - 1] == t[0];
    }
  }

  const UNSTAKE_PREFIX := "pending_unstake:"

  function UnstakeKey(unlockEpoch: u64, address: string, requestEpoch: u64): string {
    UNSTAKE_PREFIX + (Padded(unlockEpoch, 20) + (":" + (address + (":" + Padded(requestEpoch, 20)))))
  }

  lemma CancelLeft(p: string, a: string, b: string)
    requires p + a == p + b
    ensures a == b
  {
    assert a == (p + a)[|p|..] == (p + b)[|p|..] == b;
  }

  /** One key stands for one (unlock epoch, address, request epoch), whatever the address is. */
  lemma UnstakeKeyInjective(u: u64, a: string, r: u64, u': u64, a': string, r': u64)
    requires UnstakeKey(u, a, r) == UnstakeKey(u', a', r')
    ensures u == u' && a == a' && r == r'
  {
    var tail, tail' := ":" + Padded(r, 20), ":" + Padded(r', 20);
    CancelLeft(UNSTAKE_PREFIX, Padded(u, 20) + (":" + (a + tail)), Padded(u', 20) + (":" + (a' + tail')));
    SplitAt(Padded(u, 20), Padded(u', 20), ":" + (a + tail), ":" + (a' + tail'));
    CancelLeft(":", a + tail, a' + tail');
    SplitAt(a, a', tail, tail');
    CancelLeft(":", Padded(r, 20), Padded(r', 20));
    TwentyDigitsFit(u); TwentyDigitsFit(u'); TwentyDigitsFit(r); TwentyDigitsFit(r');
    PaddedOrder(u, u', 20);
    PaddedOrder(r, r', 20);
  }

  /** An entry that unlocks earlier is scanned earlier. */
  lemma UnstakeKeyOrder(u: u64, a: string, r: u64, u': u64, a': string, r': u64)
    requires u < u'
    ensures Less(UnstakeKey(u, a, r), UnstakeKey(u', a', r'))
  {
    var rest, rest' := ":" + (a + (":" + Padded(r, 20))), ":" + (a' + (":" + Padded(r', 20)));
    TwentyDigitsFit(u); TwentyDigitsFit(u');
    PaddedOrder(u, u', 20);
    LessAppend(Padded(u, 20), Padded(u', 20), rest, rest');
    LessAppend(UNSTAKE_PREFIX, UNSTAKE_PREFIX, Padded(u, 20) + rest, Padded(u', 20) + rest');
  }

  /** Plain decimal, without padding. */
  function Decimal(n: nat): (s: string)
    ensures s != ""
  {
    if n < 10 then [Digit(n)] else Decimal(n / 10) + [Digit(n % 10)]
  }

  ghost predicate AllDigits(s: string) {
    forall i :: 0 <= i < |s| ==> '0' <= s[i] <= '9'
  }

  lemma {:induction false} DecimalInjective(a: nat, b: nat)
    requires Decimal(a) == Decimal(b)
    ensures a == b
  {
    var x, y := Decimal(a), Decimal(b);
    assert x[|x| - 1] == Digit(a % 10) && y[|y| - 1] == Digit(b % 10);
    if a >= 10 && b >= 10 {
      assert Decimal(a / 10) == x[..|x| - 1] == y[..|y| - 1] == Decimal(b / 10);
      DecimalInjective(a / 10, b / 10);
    }
  }

  lemma {:induction false} DecimalDigits(n: nat)
    ensures AllDigits(Decimal(n))
  {
    if n >= 10 {
      DecimalDigits(n / 10);
    }
  }

  /* ---------- The texts themselves ---------- */

  lemma DecimalExample()
    ensures Decimal(12_050) == "12050" && Decimal(0) == "0"
  {
    assert Decimal(12) == "12" && Decimal(120) == "120" && Decimal(1_205) == "1205";
  }

  lemma TwentyDigitsOf12()
    ensures Padded(12, 20) == "00000000000000000012"
  {
    ZeroPadded(18);
    assert Padded(1, 19) == Padded(0, 18) + "1" && Padded(12, 20) == Padded(1, 19) + "2";
    assert "000000000000000000" + "1" + "2" == "00000000000000000012";
  }

  lemma {:induction false} ZeroPadded(width: nat)
    requires width <= 18
    ensures Padded(0, width) == "000000000000000000"[..width]
  {
    if width > 0 {
      ZeroPadded(width - 1);
    }
  }

  lemma UnstakeKeyExample()
    ensures UnstakeKey(12, "ab", 12)
         == "pending_unstake:" + ("00000000000000000012" + (":" + ("ab" + (":" + "00000000000000000012"))))
  {
    TwentyDigitsOf12();
  }
}
