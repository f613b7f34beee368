/** What a block hash commits to. Header fields are written one after the other without separators. */
module HeaderHash {
  import opened Prelude
  import opened Types
  import opened Keys
  import opened Mining

  /** The nine pieces of the hashed text. */
  function Piece(h: BlockHeader, i: nat): string
    requires i <= 8
  {
    if i == 0 then Decimal(h.index)
    else if i == 1 then DecimalInt(h.timestamp)
    else if i == 2 then h.previousHash
    else if i == 3 then h.merkleRoot
    else if i == 4 then Decimal(h.nonce)
    else if i == 5 then Decimal(h.difficulty)
    else if i == 6 then (if h.isEpochBlock then "1" else "0")
    else if i == 7 then Decimal(h.epochIndex)
    else h.stateRoot
  }

  function UpTo(h: BlockHeader, i: nat): string
    requires i <= 8
  {
    if i == 0 then Piece(h, 0) else UpTo(h, i - 1) + Piece(h, i)
  }

  lemma TextIsPieces(h: BlockHeader)
    ensures HeaderText(h) == UpTo(h, 8)
  {
    var first := UpTo(h, 2);
    assert UpTo(h, 1) == UpTo(h, 0) + Piece(h, 1);
    assert first == Piece(h, 0) + Piece(h, 1) + Piece(h, 2);
    assert UpTo(h, 3) == first + Piece(h, 3);
    assert UpTo(h, 4) == UpTo(h, 3) + Piece(h, 4);
    assert UpTo(h, 5) == UpTo(h, 4) + Piece(h, 5);
    assert UpTo(h, 6) == UpTo(h, 5) + Piece(h, 6);
    assert UpTo(h, 7) == UpTo(h, 6) + Piece(h, 7);
  }

  /** The text of one header, character by character: this fixes which fields are hashed and in what order. */
  lemma HeaderTextExample()
    ensures HeaderText(BlockHeader(7, -5, "p", "m", 3, 2, true, 1, "s")) == "7-5pm3211s"
  {
  }

  lemma CancelRight(a: string, b: string, s: string)
    requires a + s == b + s
    ensures a == b
  {
    SplitAt(a, b, s, s) by {
      assert |a + s| == |b + s|;
    }
  }

  /* ---------- One field at a time ---------- */

  /** Texts that agree in all pieces but one agree in that one too. */
  lemma {:induction false} OnePiece(h: BlockHeader, h': BlockHeader, i: nat, n: nat)
    requires i <= n <= 8 && UpTo(h, n) == UpTo(h', n)
    requires forall j :: 0 <= j <= 8 && j != i ==> Piece(h, j) == Piece(h', j)
    ensures Piece(h, i) == Piece(h', i)
    decreases n
  {
    if i < n {
      CancelRight(UpTo(h, n - 1), UpTo(h', n - 1), Piece(h, n));
      OnePiece(h, h', i, n - 1);
    } else if n > 0 {
      SameBefore(h, h', n - 1, i);
      CancelLeft(UpTo(h, n - 1), Piece(h, n), Piece(h', n));
    }
  }

  lemma {:induction false} SameBefore(h: BlockHeader, h': BlockHeader, n: nat, i: nat)
    requires n < i <= 8 && forall j :: 0 <= j <= 8 && j != i ==> Piece(h, j) == Piece(h', j)
    ensures UpTo(h, n) == UpTo(h', n)
  {
    if n > 0 {
      SameBefore(h, h', n - 1, i);
    }
  }

  lemma MinusFirst(n: int)
    ensures DecimalInt(n) != "" && (DecimalInt(n)[0] == '-' <==> n < 0)
  {
    if n >= 0 {
      DecimalDigits(n);
    }
  }

  lemma DecimalIntInjective(a: int, b: int)
    requires DecimalInt(a) == DecimalInt(b)
    ensures a == b
  {
    MinusFirst(a);
    MinusFirst(b);
    if a < 0 && b < 0 {
      CancelLeft("-", Decimal(-a), Decimal(-b));
      DecimalInjective(-a, -b);
    } else if a >= 0 && b >= 0 {
      DecimalInjective(a, b);
    }
  }

  /** The headers differ in one field at most. */
  predicate OneFieldApart(h: BlockHeader, h': BlockHeader) {
    || h' == h.(index := h'.index)
    || h' == h.(timestamp := h'.timestamp)
    || h' == h.(previousHash := h'.previousHash)
    || h' == h.(merkleRoot := h'.merkleRoot)
    || h' == h.(nonce := h'.nonce)
    || h' == h.(difficulty := h'.difficulty)
    || h' == h.(isEpochBlock := h'.isEpochBlock)
    || h' == h.(epochIndex := h'.epochIndex)
    || h' == h.(stateRoot := h'.stateRoot)
  }

  lemma PieceDetermined(h: BlockHeader, h': BlockHeader)
    requires OneFieldApart(h, h') && forall j :: 0 <= j <= 8 ==> Piece(h, j) == Piece(h', j)
    ensures h == h'
  {
    assert Piece(h, 0) == Piece(h', 0) && Piece(h, 1) == Piece(h', 1) && Piece(h, 2) == Piece(h', 2);
    assert Piece(h, 3) == Piece(h', 3) && Piece(h, 4) == Piece(h', 4) && Piece(h, 5) == Piece(h', 5);
    assert Piece(h, 6) == Piece(h', 6) && Piece(h, 7) == Piece(h', 7) && Piece(h, 8) == Piece(h', 8);
    DecimalInjective(h.index, h'.index);
    DecimalIntInjective(h.timestamp, h'.timestamp);
    DecimalInjective(h.nonce, h'.nonce);
    DecimalInjective(h.difficulty, h'.difficulty);
    DecimalInjective(h.epochIndex, h'.epochIndex);
    assert "1" != "0";
  }

  function FieldApart(h: BlockHeader, h': BlockHeader): (i: nat)
    requires OneFieldApart(h, h')
    ensures i <= 8 && forall j :: 0 <= j <= 8 && j != i ==> Piece(h, j) == Piece(h', j)
  {
    if h' == h.(index := h'.index) then 0
    else if h' == h.(timestamp := h'.timestamp) then 1
    else if h' == h.(previousHash := h'.previousHash) then 2
    else if h' == h.(merkleRoot := h'.merkleRoot) then 3
    else if h' == h.(nonce := h'.nonce) then 4
    else if h' == h.(difficulty := h'.difficulty) then 5
    else if h' == h.(isEpochBlock := h'.isEpochBlock) then 6
    else if h' == h.(epochIndex := h'.epochIndex) then 7
    else 8
  }

  /** A block hash commits to each field of its header: two headers that differ in one field at most
      have one hash only if they are the same, or their texts are a collision. */
  lemma HeaderCommits(H: string -> Digest, h: BlockHeader, h': BlockHeader) returns (c: Option<Collision>)
    requires OneFieldApart(h, h')
    ensures c.None? ==> (HashBlockHeader(H, h) == HashBlockHeader(H, h') <==> h == h')
    ensures c.Some? ==> Collides(H, c.value) && c.value == Collision(HeaderText(h), HeaderText(h'))
  {
    c := None;
    if HashBlockHeader(H, h) == HashBlockHeader(H, h') {
      if HeaderText(h) != HeaderText(h') {
        c := Some(Collision(HeaderText(h), HeaderText(h')));
      } else {
        TextIsPieces(h);
        TextIsPieces(h');
        OnePiece(h, h', FieldApart(h, h'), 8);
        PieceDetermined(h, h');
      }
    }
  }

  /** Of two fields at once it does not: the digits of neighbouring numbers run together. */
  lemma NeighboursRunTogether(previousHash: string, merkleRoot: string, stateRoot: string)
    ensures HeaderText(BlockHeader(1, 23, previousHash, merkleRoot, 0, 1, false, 0, stateRoot))
         == HeaderText(BlockHeader(12, 3, previousHash, merkleRoot, 0, 1, false, 0, stateRoot))
  {
    assert Decimal(1) + DecimalInt(23) == "123" == Decimal(12) + DecimalInt(3);
  }

  /* ---------- Blocks with one predecessor ---------- */

  /** The text repeats itself every `k` characters. */
  predicate Repeats(s: string, k: nat) {
    forall i :: 0 <= i && i + k < |s| ==> s[i] == s[i + k]
  }

  /** How many digits apart two timestamps are. */
  function DigitsApart(t: int, t': int): nat {
    var n, n' := |DecimalInt(t)|, |DecimalInt(t')|;
    if n <= n' then n' - n else n - n'
  }

  lemma ShiftRepeats(d: string, d': string, p: string, r: string, r': string)
    requires |d| <= |d'| && d + p + r == d' + p + r'
    ensures Repeats(p, |d'| - |d|)
  {
    var k, z := |d'| - |d|, d + p + r;
    forall i | 0 <= i && i + k < |p|
      ensures p[i] == p[i + k]
    {
      assert z[|d| + (i + k)] == p[i + k];
      assert z[|d'| + i] == (d' + p + r')[|d'| + i] == p[i];
    }
  }

  /** Headers at one height on one predecessor with one text: their timestamps and roots are the same
      if the timestamps are equally long; and if they are not, the predecessor's hash repeats itself. */
  lemma SameTextSameRoot(h: BlockHeader, h': BlockHeader)
    requires HeaderText(h) == HeaderText(h')
    requires h.index == h'.index && h.previousHash == h'.previousHash && |h.merkleRoot| == |h'.merkleRoot|
    ensures DigitsApart(h.timestamp, h'.timestamp) == 0 ==> h.timestamp == h'.timestamp && h.merkleRoot == h'.merkleRoot
    ensures Repeats(h.previousHash, DigitsApart(h.timestamp, h'.timestamp))
  {
    var d, d' := DecimalInt(h.timestamp), DecimalInt(h'.timestamp);
    var r, r' := TextAfterRoot(h), TextAfterRoot(h');
    TextAroundRoot(h);
    TextAroundRoot(h');
    var x, x' := d + h.previousHash + (h.merkleRoot + r), d' + h'.previousHash + (h'.merkleRoot + r');
    CancelLeft(Decimal(h.index), x, x');
    if |d| <= |d'| {
      ShiftRepeats(d, d', h.previousHash, h.merkleRoot + r, h'.merkleRoot + r');
    } else {
      ShiftRepeats(d', d, h.previousHash, h'.merkleRoot + r', h.merkleRoot + r);
    }
    if |d| == |d'| {
      SplitAt(d + h.previousHash, d' + h'.previousHash, h.merkleRoot + r, h'.merkleRoot + r');
      SplitAt(d, d', h.previousHash, h'.previousHash);
      SplitAt(h.merkleRoot, h'.merkleRoot, r, r');
      DecimalIntInjective(h.timestamp, h'.timestamp);
    }
  }

  function TextAfterRoot(h: BlockHeader): string {
    Piece(h, 4) + Piece(h, 5) + Piece(h, 6) + Piece(h, 7) + Piece(h, 8)
  }

  lemma TextAroundRoot(h: BlockHeader)
    ensures HeaderText(h) == Decimal(h.index) + (DecimalInt(h.timestamp) + h.previousHash + (h.merkleRoot + TextAfterRoot(h)))
  {
    var before := Decimal(h.index) + DecimalInt(h.timestamp) + h.previousHash;
    JoinFive(before + h.merkleRoot, Piece(h, 4), Piece(h, 5), Piece(h, 6), Piece(h, 7), Piece(h, 8));
    assert HeaderText(h) == before + h.merkleRoot + TextAfterRoot(h);
    assert before == Decimal(h.index) + (DecimalInt(h.timestamp) + h.previousHash);
  }

  lemma JoinFive(s: string, a: string, b: string, c: string, d: string, e: string)
    ensures s + a + b + c + d + e == s + (a + b + c + d + e)
  {
  }

  /** The exception is real: after a predecessor hash of ones, two headers at one height with different
      timestamps, roots and nonces have one text. */
  lemma RootsRunTogether(ones: string, tail: string)
    requires |ones| == 64 && ones[0] == '1' && Repeats(ones, 1) && |tail| == 63 && tail[0] != '1'
    ensures HeaderText(BlockHeader(9, 1, ones, "1" + tail, 57, 1, false, 0, ""))
         == HeaderText(BlockHeader(9, 11, ones, tail + "5", 7, 1, false, 0, ""))
    ensures "1" + tail != tail + "5"
  {
    assert ("1" + tail)[0] != (tail + "5")[0];
    OnesShift(ones);
    assert Decimal(57) == "57" && DecimalInt(11) == "11" && DecimalInt(1) == "1" && Decimal(7) == "7" && Decimal(9) == "9";
    Regroup("9", ones, tail);
  }

  lemma Regroup(index: string, ones: string, tail: string)
    requires ones + "1" == "1" + ones
    ensures index + "1" + ones + ("1" + tail) + "57" == index + "11" + ones + (tail + "5") + "7"
  {
    assert index + "1" + ones + ("1" + tail) + "57" == index + "1" + (ones + "1") + tail + "57";
    assert index + "1" + ("1" + ones) + tail + "57" == index + "11" + ones + (tail + "5") + "7";
  }

  lemma OnesShift(ones: string)
    requires Repeats(ones, 1) && |ones| == 64 && ones[0] == '1'
    ensures ones + "1" == "1" + ones
  {
    AllOnes(ones, 63);
  }

  lemma {:induction false} AllOnes(ones: string, i: nat)
    requires Repeats(ones, 1) && i < |ones| && ones[0] == '1'
    ensures forall j :: 0 <= j <= i ==> ones[j] == '1'
  {
    if i > 0 {
      AllOnes(ones, i - 1);
      assert ones[i - 1] == ones[(i - 1) + 1];
    }
  }
}
