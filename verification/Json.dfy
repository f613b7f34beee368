/** The serialised form of an account, as hashed into the state root. */
module Json {
  import opened Prelude
  import opened Types
  import opened Keys

  function HexDigit(d: nat): char
    requires d < 16
  {
    if d < 10 then (48 + d) as char else (87 + d) as char
  }

  /** String escapes of the serialiser. */
  function EscapeChar(c: char): (s: string)
    ensures s != ""
  {
    if c == '"' then "\\\""
    else if c == '\\' then "\\\\"
    else if c as int == 8 then "\\b"
    else if c as int == 9 then "\\t"
    else if c as int == 10 then "\\n"
    else if c as int == 12 then "\\f"
    else if c as int == 13 then "\\r"
    else if c as int < 32 then "\\u00" + [HexDigit(c as int / 16), HexDigit(c as int % 16)]
    else [c]
  }

  function Escape(s: string): string {
    if s == "" then "" else EscapeChar(s[0]) + Escape(s[1..])
  }

  function TierJson(t: Option<ValidatorTier>): string {
    match t
    case None => "null"
    case Some(Igniter) => "\"Igniter\""
    case Some(Kinetic) => "\"Kinetic\""
    case Some(Nexus) => "\"Nexus\""
  }

  function BoolJson(b: bool): string {
    if b then "true" else "false"
  }

  /** The seven comma-separated parts of the object, the first with the address. */
  function Part(a: Account, i: nat): string
    requires 1 <= i <= 6
  {
    if i == 1 then "\"balance\":" + Decimal(a.balance)
    else if i == 2 then "\"staked_balance\":" + Decimal(a.stakedBalance)
    else if i == 3 then "\"nonce\":" + Decimal(a.nonce)
    else if i == 4 then "\"validator_tier\":" + TierJson(a.validatorTier)
    else if i == 5 then "\"is_contract\":" + BoolJson(a.isContract)
    else "\"last_reward_epoch\":" + Decimal(a.lastRewardEpoch) + "}"
  }

  function AddressPart(address: string): string {
    "{\"address\":\"" + Escape(address) + "\""
  }

  /** The object up to and including part `i`, preceded by the address it is stored under. */
  function LeafUpTo(a: Account, i: nat): string
    requires i <= 6
  {
    if i == 0 then a.address + AddressPart(a.address) else LeafUpTo(a, i - 1) + "," + Part(a, i)
  }

  /** What is hashed for one account: its address followed by its serialised form. */
  function Leaf(a: Account): string {
    LeafUpTo(a, 6)
  }

  /* ---------- The leaf determines the account ---------- */

  lemma FieldHasNoComma(name: string, x: nat, close: string)
    requires ',' !in name && ',' !in close
    ensures ',' !in name + Decimal(x) + close
  {
    DecimalDigits(x);
  }

  lemma PartHasNoComma(a: Account, i: nat)
    requires 1 <= i <= 6
    ensures ',' !in Part(a, i)
  {
    if i == 1 {
      FieldHasNoComma("\"balance\":", a.balance, "");
      assert Part(a, 1) + "" == Part(a, 1);
    } else if i == 2 {
      FieldHasNoComma("\"staked_balance\":", a.stakedBalance, "");
      assert Part(a, 2) + "" == Part(a, 2);
    } else if i == 3 {
      FieldHasNoComma("\"nonce\":", a.nonce, "");
      assert Part(a, 3) + "" == Part(a, 3);
    } else if i == 4 {
      assert ',' !in TierJson(a.validatorTier);
    } else if i == 6 {
      FieldHasNoComma("\"last_reward_epoch\":", a.lastRewardEpoch, "}");
    }
  }

  lemma PartInjective(a: Account, b: Account, i: nat)
    requires 1 <= i <= 6 && Part(a, i) == Part(b, i)
    ensures i == 1 ==> a.balance == b.balance
    ensures i == 2 ==> a.stakedBalance == b.stakedBalance
    ensures i == 3 ==> a.nonce == b.nonce
    ensures i == 4 ==> a.validatorTier == b.validatorTier
    ensures i == 5 ==> a.isContract == b.isContract
    ensures i == 6 ==> a.lastRewardEpoch == b.lastRewardEpoch
  {
    if i == 1 {
      FieldInjective("\"balance\":", a.balance, b.balance, "");
    } else if i == 2 {
      FieldInjective("\"staked_balance\":", a.stakedBalance, b.stakedBalance, "");
    } else if i == 3 {
      FieldInjective("\"nonce\":", a.nonce, b.nonce, "");
    } else if i == 4 {
      CancelLeft("\"validator_tier\":", TierJson(a.validatorTier), TierJson(b.validatorTier));
      TierJsonInjective(a.validatorTier, b.validatorTier);
    } else if i == 5 {
      CancelLeft("\"is_contract\":", BoolJson(a.isContract), BoolJson(b.isContract));
      assert |BoolJson(true)| == 4 && |BoolJson(false)| == 5;
    } else {
      FieldInjective("\"last_reward_epoch\":", a.lastRewardEpoch, b.lastRewardEpoch, "}");
    }
  }

  lemma FieldInjective(name: string, x: nat, y: nat, close: string)
    requires name + Decimal(x) + close == name + Decimal(y) + close
          || (close == "" && name + Decimal(x) == name + Decimal(y))
    ensures x == y
  {
    var s, t := name + Decimal(x), name + Decimal(y);
    assert s == t by {
      if close != "" {
        assert |s| == |t|;
        SplitAt(s, t, close, close);
      } else {
        assert s + close == s && t + close == t;
      }
    }
    CancelLeft(name, Decimal(x), Decimal(y));
    DecimalInjective(x, y);
  }

  lemma TierJsonInjective(s: Option<ValidatorTier>, t: Option<ValidatorTier>)
    requires TierJson(s) == TierJson(t)
    ensures s == t
  {
    assert TierJson(None)[0] == 'n' && TierJson(Some(Igniter))[1] == 'I';
    assert TierJson(Some(Kinetic))[1] == 'K' && TierJson(Some(Nexus))[1] == 'N';
    assert TierJson(Some(Igniter))[0] == TierJson(Some(Kinetic))[0] == TierJson(Some(Nexus))[0] == '"';
  }

  /** A string splits at its last comma in one way only. */
  lemma SplitLastComma(x: string, s: string, y: string, t: string)
    requires ',' !in s && ',' !in t
    requires x + "," + s == y + "," + t
    ensures x == y && s == t
  {
    var z := x + "," + s;
    assert z[|x|] == ',' && z[|y|] == ',';
    assert forall k :: |x| < k < |z| ==> z[k] == s[k - |x| - 1] && z[k] != ',';
    assert forall k :: |y| < k < |z| ==> z[k] == t[k - |y| - 1] && z[k] != ',';
    assert x == z[..|x|] && y == z[..|y|];
    assert s == z[|x| + 1..] && t == z[|y| + 1..];
  }

  lemma {:induction false} EscapeAppend(s: string, t: string)
    ensures Escape(s + t) == Escape(s) + Escape(t)
  {
    if s == "" {
      assert s + t == t;
    } else {
      assert (s + t)[1..] == s[1..] + t;
      EscapeAppend(s[1..], t);
    }
  }

  /** The address is determined by itself followed by its quoted form: a longer address would make
      both halves longer. */
  lemma AddressDetermined(a: string, b: string)
    requires a + AddressPart(a) == b + AddressPart(b)
    ensures a == b
  {
    if |a| <= |b| {
      PrefixDetermined(a, b);
    } else {
      PrefixDetermined(b, a);
    }
  }

  lemma PrefixDetermined(a: string, b: string)
    requires |a| <= |b| && a + AddressPart(a) == b + AddressPart(b)
    ensures a == b
  {
    var z := a + AddressPart(a);
    assert a == z[..|a|] == b[..|a|];
    var x := b[|a|..];
    assert b == a + x;
    EscapeAppend(a, x);
    assert |AddressPart(b)| == |AddressPart(a)| + |Escape(x)|;
  }

  lemma LastPart(a: Account, b: Account, i: nat)
    requires 0 < i <= 6 && LeafUpTo(a, i) == LeafUpTo(b, i)
    ensures LeafUpTo(a, i - 1) == LeafUpTo(b, i - 1) && Part(a, i) == Part(b, i)
  {
    PartHasNoComma(a, i);
    PartHasNoComma(b, i);
    SplitLastComma(LeafUpTo(a, i - 1), Part(a, i), LeafUpTo(b, i - 1), Part(b, i));
  }

  lemma {:induction false} LeafUpToInjective(a: Account, b: Account, i: nat)
    requires i <= 6 && LeafUpTo(a, i) == LeafUpTo(b, i)
    ensures a.address == b.address
    ensures forall j :: 1 <= j <= i ==> Part(a, j) == Part(b, j)
  {
    if i == 0 {
      AddressDetermined(a.address, b.address);
    } else {
      LastPart(a, b, i);
      LeafUpToInjective(a, b, i - 1);
    }
  }

  /** Different accounts have different leaves, for every address, balance and tier. */
  lemma LeafInjective(a: Account, b: Account)
    ensures Leaf(a) == Leaf(b) <==> a == b
  {
    if Leaf(a) == Leaf(b) {
      LeafUpToInjective(a, b, 6);
      PartInjective(a, b, 1);
      PartInjective(a, b, 2);
      PartInjective(a, b, 3);
      PartInjective(a, b, 4);
      PartInjective(a, b, 5);
      PartInjective(a, b, 6);
    }
  }

  /** The text of one account, piece by piece: this fixes names, order and form of the fields. */
  lemma LeafExample()
    ensures Leaf(Account("a", 50, 7, 3, Some(Kinetic), false, 2))
         == "a" + "{\"address\":\"a\"" + "," + "\"balance\":50" + "," + "\"staked_balance\":7" + "," + "\"nonce\":3"
            + "," + "\"validator_tier\":\"Kinetic\"" + "," + "\"is_contract\":false" + "," + "\"last_reward_epoch\":2}"
  {
    var a := Account("a", 50, 7, 3, Some(Kinetic), false, 2);
    PartExamples(a);
    assert LeafUpTo(a, 1) == LeafUpTo(a, 0) + "," + Part(a, 1);
    assert LeafUpTo(a, 2) == LeafUpTo(a, 1) + "," + Part(a, 2);
    assert LeafUpTo(a, 3) == LeafUpTo(a, 2) + "," + Part(a, 3);
    assert LeafUpTo(a, 4) == LeafUpTo(a, 3) + "," + Part(a, 4);
    assert LeafUpTo(a, 5) == LeafUpTo(a, 4) + "," + Part(a, 5);
  }

  lemma PartExamples(a: Account)
    requires a == Account("a", 50, 7, 3, Some(Kinetic), false, 2)
    ensures AddressPart("a") == "{\"address\":\"a\""
    ensures Part(a, 1) == "\"balance\":50" && Part(a, 2) == "\"staked_balance\":7" && Part(a, 3) == "\"nonce\":3"
    ensures Part(a, 4) == "\"validator_tier\":\"Kinetic\"" && Part(a, 5) == "\"is_contract\":false"
    ensures Part(a, 6) == "\"last_reward_epoch\":2}"
  {
    assert Escape("a") == "a" by {
      assert "a"[1..] == "";
    }
    assert Decimal(50) == "50" && Decimal(7) == "7" && Decimal(3) == "3" && Decimal(2) == "2";
  }
}
