/** The hashed header, the compact target and the comparison of one with the other. */
module ProofOfWork {
  import opened Bytes
  import opened Types
  import opened Txid

  // ---------- the 80 hashed bytes ----------

  /** Only the low four bytes of the timestamp are hashed. */
  function HashedHeader(h: BlockHeader): (bs: seq<byte>)
    ensures |bs| == 80
  {
    LE(h.version, 4) + (h.previousHash + (h.merkleRoot + (LE(h.timestamp % 0x1_0000_0000, 4)
    + (LE(h.difficultyTarget, 4) + LE(h.nonce, 4)))))
  }

  function HeaderHash(H: HashFn, h: BlockHeader): Hash { H(HashedHeader(h)) }

  /** A header hash commits to every field but the upper half of the timestamp, and to no more. */
  lemma HeaderBytesExact(a: BlockHeader, b: BlockHeader)
    ensures HashedHeader(a) == HashedHeader(b) <==>
              && a.(timestamp := 0) == b.(timestamp := 0)
              && a.timestamp % 0x1_0000_0000 == b.timestamp % 0x1_0000_0000
  {
    if HashedHeader(a) == HashedHeader(b) {
      var a5, b5 := LE(a.nonce, 4), LE(b.nonce, 4);
      var a4, b4 := LE(a.difficultyTarget, 4) + a5, LE(b.difficultyTarget, 4) + b5;
      var a3, b3 := LE(a.timestamp % 0x1_0000_0000, 4) + a4, LE(b.timestamp % 0x1_0000_0000, 4) + b4;
      var a2, b2 := a.merkleRoot + a3, b.merkleRoot + b3;
      Split(LE(a.version, 4), a.previousHash + a2, LE(b.version, 4), b.previousHash + b2);
      Split(a.previousHash, a2, b.previousHash, b2);
      Split(a.merkleRoot, a3, b.merkleRoot, b3);
      Split(LE(a.timestamp % 0x1_0000_0000, 4), a4, LE(b.timestamp % 0x1_0000_0000, 4), b4);
      Split(LE(a.difficultyTarget, 4), a5, LE(b.difficultyTarget, 4), b5);
      Widths();
      LEInjective(a.version, b.version, 4);
      LEInjective(a.timestamp % 0x1_0000_0000, b.timestamp % 0x1_0000_0000, 4);
      LEInjective(a.difficultyTarget, b.difficultyTarget, 4);
      LEInjective(a.nonce, b.nonce, 4);
    }
  }

  // ---------- the compact target ----------

  function SizeByte(compact: u32): (n: nat)
    ensures n < 256
  {
    compact / 0x100_0000
  }

  function Mantissa(compact: u32): (m: nat)
    ensures m < 0x80_0000
  {
    compact % 0x80_0000
  }

  /** The number a compact target stands for by its documentation: mantissa * 256^(size - 3). */
  function CompactValue(compact: u32): nat {
    var n := SizeByte(compact);
    if n <= 3 then Quotient(Mantissa(compact), Pow256(3 - n)) else Mantissa(compact) * Pow256(n - 3)
  }

  /** For a size byte n and 24 mantissa bits m: the top bit of m is dropped, the rest shifted by n - 3 bytes. */
  lemma CompactValueOf(n: nat, m: nat)
    requires n < 256 && m < 0x100_0000
    ensures n >= 3 ==> CompactValue(n * 0x100_0000 + m) == m % 0x80_0000 * Pow256(n - 3)
    ensures n == 2 ==> CompactValue(n * 0x100_0000 + m) == m % 0x80_0000 / 0x100
    ensures n == 1 ==> CompactValue(n * 0x100_0000 + m) == m % 0x80_0000 / 0x1_0000
    ensures n == 0 ==> CompactValue(n * 0x100_0000 + m) == 0
  {
    assert SizeByte(n * 0x100_0000 + m) == n && Mantissa(n * 0x100_0000 + m) == m % 0x80_0000;
    Widths();
    assert Pow256(3) == 256 * Pow256(2) && Pow256(0) == 1;
  }

  /** The target array: that number modulo 2^256, highest byte first. */
  function Target(compact: u32): (t: seq<byte>)
    ensures |t| == 32
  {
    Reverse(LE(CompactValue(compact), 32))
  }

  lemma {:induction false} LEShift(w: nat, k: nat, n: nat)
    ensures LE(w * Pow256(k), n) == if k <= n then Zeros(k) + LE(w, n - k) else Zeros(n)
  {
    if k == 0 {
      assert w * Pow256(0) == w;
      assert Zeros(0) + LE(w, n) == LE(w, n);
    } else if n > 0 {
      var x := w * Pow256(k - 1);
      assert w * Pow256(k) == 256 * x;
      LEShift(w, k - 1, n - 1);
      assert Zeros(k) == [0] + Zeros(k - 1);
    }
  }

  /** The three bytes of a 24-bit word, then zeros. */
  lemma LEOfWord(w: nat, n: nat)
    requires w < 0x100_0000
    ensures var bs := LE(w, n);
            && (n > 0 ==> bs[0] == w % 256)
            && (n > 1 ==> bs[1] == w / 0x100 % 256)
            && (n > 2 ==> bs[2] == w / 0x1_0000 % 256)
            && forall i :: 3 <= i < n ==> bs[i] == 0
  {
    assert w / 0x100 / 0x100 == w / 0x1_0000 && w / 0x1_0000 / 0x100 == 0;
    if n > 0 { assert LE(w, n) == [w % 256] + LE(w / 0x100, n - 1); }
    if n > 1 { assert LE(w / 0x100, n - 1) == [w / 0x100 % 256] + LE(w / 0x1_0000, n - 2); }
    if n > 2 {
      assert LE(w / 0x1_0000, n - 2) == [w / 0x1_0000 % 256] + LE(0, n - 3);
      ZeroBytes(n - 3);
    }
  }

  /** Where the bytes of a shifted word lie in the array: counted from its end. */
  function Placed(w: nat, k: nat, i: nat): byte {
    if i == k then w % 256 else if i == k + 1 then w / 0x100 % 256
    else if i == k + 2 then w / 0x1_0000 % 256 else 0
  }

  lemma ShiftedBytes(w: nat, k: nat)
    requires w < 0x100_0000
    ensures forall i :: 0 <= i < 32 ==> LE(w * Pow256(k), 32)[i] == Placed(w, k, i)
  {
    ShiftedBytesOf(w, k, 32);
  }

  lemma ShiftedBytesOf(w: nat, k: nat, n: nat)
    requires w < 0x100_0000
    ensures forall i :: 0 <= i < n ==> LE(w * Pow256(k), n)[i] == Placed(w, k, i)
  {
    LEShift(w, k, n);
    if k <= n {
      LEOfWord(w, n - k);
    }
  }

  /** The mantissa after the right shift of small sizes, and the left shift in bytes of large ones. */
  function Word(compact: u32): (w: nat)
    ensures w < 0x100_0000
  {
    var n := SizeByte(compact);
    if n == 0 then Mantissa(compact) / 0x100_0000
    else if n == 1 then Mantissa(compact) / 0x1_0000
    else if n == 2 then Mantissa(compact) / 0x100
    else Mantissa(compact)
  }

  function Shift(compact: u32): nat {
    if SizeByte(compact) <= 3 then 0 else SizeByte(compact) - 3
  }

  lemma ValueOfWord(compact: u32)
    ensures CompactValue(compact) == Word(compact) * Pow256(Shift(compact))
  {
    Widths();
    assert Pow256(3) == 256 * Pow256(2) && Pow256(0) == 1;
  }

  lemma TargetBytes(compact: u32)
    ensures forall i :: 0 <= i < 32 ==>
              Target(compact)[31 - i] == Placed(Word(compact), Shift(compact), i)
  {
    ValueOfWord(compact);
    ShiftedBytes(Word(compact), Shift(compact));
  }

  method ExpandTarget(compact: u32) returns (target: array<byte>)
    ensures fresh(target) && target.Length == 32 && target[..] == Target(compact)
  {
    target := new byte[32];
    for i := 0 to 32
      invariant forall j :: 0 <= j < i ==> target[j] == 0
    {
      target[i] := 0;
    }
    var nSize := compact / 0x100_0000;
    var nWord: nat := compact % 0x80_0000;
    if nSize <= 3 {
      nWord := if nSize == 3 then nWord else if nSize == 2 then nWord / 0x100
               else if nSize == 1 then nWord / 0x1_0000 else nWord / 0x100_0000;
      target[31] := nWord % 256;
      target[30] := nWord / 0x100 % 256;
      target[29] := nWord / 0x1_0000 % 256;
    } else {
      var shift := 8 * (nSize - 3);
      var bytePos := 32 - shift / 8 - 1;
      if bytePos >= 0 {
        target[bytePos] := nWord % 256;
        if bytePos > 0 { target[bytePos - 1] := nWord / 0x100 % 256; }
        if bytePos > 1 { target[bytePos - 2] := nWord / 0x1_0000 % 256; }
      }
    }
    TargetBytes(compact);
    forall j | 0 <= j < 32
      ensures target[j] == Target(compact)[j]
    {
      assert target[j] == Placed(Word(compact), Shift(compact), 31 - j);
      assert Target(compact)[31 - (31 - j)] == Placed(Word(compact), Shift(compact), 31 - j);
    }
  }

  lemma TargetReadBigEndian(compact: u32)
    ensures FromBE(Target(compact)) == CompactValue(compact) % Pow256(32)
  {
    var le := LE(CompactValue(compact), 32);
    FromBEIsReversedLE(Target(compact));
    ReverseTwice(le);
    FromLEWraps(CompactValue(compact), 32);
  }

  // ---------- the comparison ----------

  /** A hash passes when, both read lowest byte first, it is no larger than the target array. */
  ghost predicate Passes(h: Hash, compact: u32) { FromLE(h) <= FromLE(Target(compact)) }

  ghost predicate HasWork(H: HashFn, h: BlockHeader) { Passes(HeaderHash(H, h), h.difficultyTarget) }

  lemma FirstDifference(a: seq<byte>, b: seq<byte>, i: nat)
    requires |a| == |b| && i < |a| && a[i] < b[i] && forall j :: i < j < |a| ==> a[j] == b[j]
    ensures FromLE(a) < FromLE(b)
  {
    assert a[i + 1..] == b[i + 1..];
    assert a[i..][1..] == a[i + 1..] && b[i..][1..] == b[i + 1..];
    assert FromLE(a[i..]) < FromLE(b[i..]);
    HighPartDecides(a[..i], a[i..], b[..i], b[i..]);
    assert a[..i] + a[i..] == a && b[..i] + b[i..] == b;
  }

  lemma HighPartDecides(a: seq<byte>, x: seq<byte>, b: seq<byte>, y: seq<byte>)
    requires |a| == |b| && FromLE(x) < FromLE(y)
    ensures FromLE(a + x) < FromLE(b + y)
  {
    FromLEConcat(a, x);
    FromLEConcat(b, y);
    FromLEBound(a);
    ScaledGap(Pow256(|a|), FromLE(x), FromLE(y));
  }

  lemma ScaledGap(p: nat, x: nat, y: nat)
    requires x < y
    ensures p * x + p <= p * y
  {
    var d: nat := y - x - 1;
    calc {
      p * y;
      p * (x + 1 + d);
      p * x + p + p * d;
    }
  }

  /** The validator's scan, from the last byte down. */
  method HashWithin(h: Hash, target: array<byte>) returns (ok: bool)
    requires target.Length == 32
    ensures ok == (FromLE(h) <= FromLE(target[..]))
  {
    ghost var t := target[..];
    var i := 31;
    while i >= 0
      invariant -1 <= i <= 31
      invariant forall j :: i < j < 32 ==> h[j] == t[j]
    {
      if h[i] < target[i] {
        FirstDifference(h, t, i);
        return true;
      }
      if h[i] > target[i] {
        FirstDifference(t, h, i);
        return false;
      }
      i := i - 1;
    }
    assert h == t;
    return true;
  }

  function Overwrite(buf: seq<byte>, at: nat, src: seq<byte>): (r: seq<byte>)
    requires at + |src| <= |buf|
    ensures |r| == |buf|
  {
    buf[..at] + src + buf[at + |src|..]
  }

  method Copy(buf: array<byte>, at: nat, src: seq<byte>)
    requires at + |src| <= buf.Length
    modifies buf
    ensures buf[..] == Overwrite(old(buf[..]), at, src)
  {
    for i := 0 to |src|
      invariant forall j :: 0 <= j < buf.Length ==>
                  buf[j] == if at <= j < at + i then src[j - at] else old(buf[j])
    {
      buf[at + i] := src[i];
    }
  }

  /** Six writes in order, the fourth of which runs into the fifth. */
  lemma SixWrites(z: seq<byte>, v: seq<byte>, p: seq<byte>, m: seq<byte>, t: seq<byte>, d: seq<byte>, n: seq<byte>)
    requires |z| == 80 && |v| == 4 && |p| == 32 && |m| == 32 && |t| == 8 && |d| == 4 && |n| == 4
    ensures var b2 := Overwrite(Overwrite(Overwrite(z, 0, v), 4, p), 36, m);
            Overwrite(Overwrite(Overwrite(b2, 68, t), 72, d), 76, n) == v + (p + (m + (t[..4] + (d + n))))
  {
    var b2 := Overwrite(Overwrite(Overwrite(z, 0, v), 4, p), 36, m);
    assert b2[..68] == v + (p + m);
    assert Overwrite(Overwrite(Overwrite(b2, 68, t), 72, d), 76, n) == b2[..68] + (t[..4] + (d + n));
  }

  /** The writes of the validator: the target lands on the upper half of the timestamp. */
  lemma OverlappingWrites(z: seq<byte>, h: BlockHeader)
    requires |z| == 80
    ensures var b1 := Overwrite(z, 0, LE(h.version, 4));
            var b2 := Overwrite(Overwrite(b1, 4, h.previousHash), 36, h.merkleRoot);
            var b3 := Overwrite(Overwrite(b2, 68, LE(h.timestamp, 8)), 72, LE(h.difficultyTarget, 4));
            Overwrite(b3, 76, LE(h.nonce, 4)) == HashedHeader(h)
  {
    LowHalf(h.timestamp);
    SixWrites(z, LE(h.version, 4), h.previousHash, h.merkleRoot, LE(h.timestamp, 8),
              LE(h.difficultyTarget, 4), LE(h.nonce, 4));
  }

  lemma LowHalf(t: u64)
    ensures LE(t, 8)[..4] == LE(t % 0x1_0000_0000, 4)
  {
    LEPrefix(t, 8, 4);
    Widths();
    FromLEWraps(t, 4);
    LEFromLE(LE(t, 4));
  }

  lemma {:induction false} LEPrefix(v: nat, n: nat, k: nat)
    requires k <= n
    ensures LE(v, n)[..k] == LE(v, k)
  {
    if k > 0 {
      LEPrefix(v / 256, n - 1, k - 1);
    }
  }

  method CheckProofOfWork(H: HashFn, header: BlockHeader) returns (ok: bool)
    ensures ok == HasWork(H, header)
  {
    var buf := new byte[80];
    ghost var z := buf[..];
    Copy(buf, 0, LE(header.version, 4));
    Copy(buf, 4, header.previousHash);
    Copy(buf, 36, header.merkleRoot);
    Copy(buf, 68, LE(header.timestamp, 8));
    Copy(buf, 72, LE(header.difficultyTarget, 4));
    Copy(buf, 76, LE(header.nonce, 4));
    OverlappingWrites(z, header);
    var h := H(buf[..]);
    var target := ExpandTarget(header.difficultyTarget);
    ok := HashWithin(h, target);
  }

  // ---------- what the comparison means ----------

  /** A word shifted by k bytes whose low 256 bits are zero: the array shows nothing of it. */
  predicate ShiftedToZero(w: nat, k: nat) {
    w == 0 || k >= 32 || (k == 31 && w % 0x100 == 0) || (k == 30 && w % 0x1_0000 == 0)
  }

  /** A word that lies in the middle of the array and is a palindrome itself. */
  predicate MirroredWord(w: nat, k: nat) {
    var b0, b1, b2 := w % 256, w / 0x100 % 256, w / 0x1_0000 % 256;
    (k == 14 && b0 == 0 && b1 == b2) || (k == 15 && b0 == b1 && b2 == 0)
  }

  /** The targets whose array is all zero: no mantissa left, or size byte 33 and more and all shifted out. */
  predicate ZeroTarget(compact: u32) { ShiftedToZero(Word(compact), Shift(compact)) }

  /** The targets whose array is a palindrome with the mantissa in it: size bytes 17 and 18. */
  predicate MirroredTarget(compact: u32) { MirroredWord(Word(compact), Shift(compact)) }

  predicate SymmetricTarget(compact: u32) { ZeroTarget(compact) || MirroredTarget(compact) }

  ghost predicate PlacedBothWays(w: nat, k: nat) {
    forall i :: 0 <= i < 32 ==> Placed(w, k, i) == Placed(w, k, 31 - i)
  }

  lemma WordBytes(w: nat)
    requires w < 0x100_0000
    ensures w == w % 256 + 0x100 * (w / 0x100 % 256) + 0x1_0000 * (w / 0x1_0000 % 256)
    ensures w % 0x1_0000 == w % 256 + 0x100 * (w / 0x100 % 256)
  {
  }

  lemma PlacedBothWaysExactly(w: nat, k: nat)
    requires w < 0x100_0000
    ensures PlacedBothWays(w, k) <==> ShiftedToZero(w, k) || MirroredWord(w, k)
  {
    WordBytes(w);
    if PlacedBothWays(w, k) {
      if k < 32 { assert Placed(w, k, k) == Placed(w, k, 31 - k); }
      if k < 31 { assert Placed(w, k, k + 1) == Placed(w, k, 30 - k); }
      if k < 30 { assert Placed(w, k, k + 2) == Placed(w, k, 29 - k); }
    }
  }

  lemma PalindromeExactly(t: seq<byte>, w: nat, k: nat)
    requires |t| == 32 && forall i :: 0 <= i < 32 ==> t[31 - i] == Placed(w, k, i)
    ensures t == Reverse(t) <==> PlacedBothWays(w, k)
  {
    if t == Reverse(t) {
      forall i | 0 <= i < 32
        ensures Placed(w, k, i) == Placed(w, k, 31 - i)
      {
        assert t[31 - i] == Placed(w, k, i) && t[31 - (31 - i)] == Placed(w, k, 31 - i);
        assert Reverse(t)[i] == t[31 - i];
      }
    }
    if PlacedBothWays(w, k) {
      forall j | 0 <= j < 32
        ensures t[j] == Reverse(t)[j]
      {
        assert t[31 - (31 - j)] == Placed(w, k, 31 - j) && t[31 - j] == Placed(w, k, j);
      }
    }
  }

  /** Which target arrays read the same in both directions. */
  lemma SymmetryExact(compact: u32)
    ensures Target(compact) == Reverse(Target(compact)) <==> SymmetricTarget(compact)
  {
    TargetBytes(compact);
    PalindromeExactly(Target(compact), Word(compact), Shift(compact));
    PlacedBothWaysExactly(Word(compact), Shift(compact));
  }

  lemma ZerosExactly(t: seq<byte>, w: nat, k: nat)
    requires |t| == 32 && (forall i :: 0 <= i < 32 ==> t[31 - i] == Placed(w, k, i)) && w < 0x100_0000
    ensures t == ZERO_HASH <==> ShiftedToZero(w, k)
  {
    WordBytes(w);
    if t == ZERO_HASH {
      if k < 32 { assert t[31 - k] == Placed(w, k, k); }
      if k < 31 { assert t[31 - (k + 1)] == Placed(w, k, k + 1); }
      if k < 30 { assert t[31 - (k + 2)] == Placed(w, k, k + 2); }
    }
    if ShiftedToZero(w, k) {
      forall j | 0 <= j < 32
        ensures t[j] == 0
      {
        assert t[31 - (31 - j)] == Placed(w, k, 31 - j);
      }
    }
  }

  lemma ZeroHashIsLeast(h: Hash)
    ensures FromLE(h) == 0 <==> h == ZERO_HASH
  {
    ZeroBytes(32);
    FromLEWraps(0, 32);
    if FromLE(h) == 0 {
      FromLEInjective(h, ZERO_HASH);
    }
  }

  /** The targets that only the zero hash passes: those whose array is all zero. */
  lemma OnlyZeroHashExactly(compact: u32)
    ensures (forall h: Hash :: Passes(h, compact) ==> h == ZERO_HASH) <==> ZeroTarget(compact)
  {
    var t: Hash := Target(compact);
    TargetBytes(compact);
    ZerosExactly(t, Word(compact), Shift(compact));
    ZeroHashIsLeast(t);
    if ZeroTarget(compact) {
      forall h: Hash | Passes(h, compact)
        ensures h == ZERO_HASH
      {
        ZeroHashIsLeast(h);
      }
    } else {
      assert Passes(t, compact);
    }
  }

  /** By the documentation a hash passes when it is no larger than the number the target stands for. */
  ghost predicate PassesAsDocumented(h: Hash, compact: u32) { FromLE(h) <= CompactValue(compact) }

  lemma {:induction false} PowGrows(a: nat, b: nat)
    requires a <= b
    ensures Pow256(a) <= Pow256(b)
    decreases b - a
  {
    if a < b {
      PowGrows(a, b - 1);
    }
  }

  /** A word below 2^24 is below 256^(k + 3) once shifted by k bytes. */
  lemma ShiftedFits(w: nat, k: nat)
    requires w < 0x100_0000
    ensures w * Pow256(k) < Pow256(k + 3)
  {
    assert Pow256(k + 3) == 256 * Pow256(k + 2) && Pow256(k + 2) == 256 * Pow256(k + 1);
    ScaledGap(Pow256(k), w, 0x100_0000);
  }

  lemma {:induction false} PowAdd(a: nat, b: nat)
    ensures Pow256(a) * Pow256(b) == Pow256(a + b)
  {
    if a > 0 {
      PowAdd(a - 1, b);
      assert 256 * (Pow256(a - 1) * Pow256(b)) == Pow256(a) * Pow256(b);
    }
  }

  /** A word of more than b bytes shifted by k is at least 2^256 once b + k reaches 32 bytes. */
  lemma ShiftedBeyond(w: nat, b: nat, k: nat, n: nat)
    requires w >= Pow256(b) && b + k >= n
    ensures w * Pow256(k) >= Pow256(n)
  {
    PowAdd(b, k);
    PowGrows(n, b + k);
    ProductGrows(Pow256(b), w, Pow256(k));
  }

  /** A nonzero word whose low 256 bits are zero is at least 2^256. */
  lemma ShiftedOut(w: nat, k: nat, n: nat)
    requires ShiftedToZero(w, k) && w != 0 && n == 32
    ensures w * Pow256(k) >= Pow256(n)
  {
    Widths();
    if k >= 32 {
      ShiftedBeyond(w, 0, k, n);
    } else if k == 31 {
      ShiftedBeyond(w, 1, k, n);
    } else {
      ShiftedBeyond(w, 2, k, n);
    }
  }

  /** Below 2^256 a zero array means a zero word. */
  lemma SmallZero(compact: u32)
    requires CompactValue(compact) < Pow256(32)
    ensures ZeroTarget(compact) <==> Word(compact) == 0
  {
    ValueOfWord(compact);
    if ZeroTarget(compact) && Word(compact) != 0 {
      ShiftedOut(Word(compact), Shift(compact), 32);
    }
  }

  /** A number from 2^256 on has its word shifted by at least 30 bytes. */
  lemma LargeShift(w: nat, k: nat, n: nat)
    requires w < 0x100_0000 && w * Pow256(k) >= Pow256(n)
    ensures k + 3 > n && w != 0
  {
    ShiftedFits(w, k);
    if k + 3 <= n {
      PowGrows(k + 3, n);
    }
  }

  /** From 2^256 on the largest hash is within the number and above the array. */
  lemma LargeTargetRefuses(compact: u32, n: nat)
    requires CompactValue(compact) >= Pow256(n) && n == 32
    ensures exists h: Hash :: PassesAsDocumented(h, compact) && !Passes(h, compact)
    ensures Word(compact) != 0 && !MirroredTarget(compact)
  {
    ValueOfWord(compact);
    LargeShift(Word(compact), Shift(compact), n);
    TargetBytes(compact);
    assert Target(compact)[31 - 0] == Placed(Word(compact), Shift(compact), 0);
    var h: Hash := LargestHash(Target(compact), n);
    assert PassesAsDocumented(h, compact) && !Passes(h, compact);
  }

  lemma LargestHash(t: Hash, n: nat) returns (h: Hash)
    requires t[31] == 0 && n == 32
    ensures FromLE(t) < FromLE(h) < Pow256(n)
  {
    h := seq<byte>(32, i => 255);
    FromLEBound(h);
    FirstDifference(t, h, 31);
  }

  /** A bound on reversed arrays and one on arrays agree for all hashes exactly when the array is a palindrome. */
  lemma ReversedBoundExactly(t: Hash, bound: nat)
    requires bound == FromLE(Reverse(t))
    ensures (forall h: Hash :: FromLE(h) <= FromLE(t) <==> FromLE(h) <= bound) <==> t == Reverse(t)
  {
    if forall h: Hash :: FromLE(h) <= FromLE(t) <==> FromLE(h) <= bound {
      var r: Hash := Reverse(t);
      assert FromLE(t) <= bound && FromLE(r) <= FromLE(t);
      FromLEInjective(t, r);
    }
  }

  lemma SmallTargetRead(compact: u32)
    requires CompactValue(compact) < Pow256(32)
    ensures FromLE(Reverse(Target(compact))) == CompactValue(compact)
  {
    TargetReadBigEndian(compact);
    FromBEIsReversedLE(Target(compact));
    SmallRemainder(CompactValue(compact), Pow256(32));
  }

  lemma SmallRemainder(v: nat, p: nat)
    requires v < p
    ensures v % p == v
  {
  }

  lemma DocumentedWhenRead(compact: u32)
    requires FromLE(Reverse(Target(compact))) == CompactValue(compact)
    ensures (forall h: Hash :: Passes(h, compact) <==> PassesAsDocumented(h, compact))
       <==> Target(compact) == Reverse(Target(compact))
  {
    var t, v := Target(compact), CompactValue(compact);
    if forall h: Hash :: Passes(h, compact) <==> PassesAsDocumented(h, compact) {
      forall h: Hash
        ensures FromLE(h) <= FromLE(t) <==> FromLE(h) <= v
      {
        assert Passes(h, compact) <==> PassesAsDocumented(h, compact);
      }
    }
    ReversedBoundExactly(t, v);
  }

  /**
   The array is filled highest byte first and compared lowest byte first, so the check decides the
   documented comparison for every hash exactly when the target is zero or mirrored. Neither the genesis
   target nor the miner's easy target is either.
   */
  lemma DocumentedExactlyWhenSymmetric(compact: u32)
    ensures (forall h: Hash :: Passes(h, compact) <==> PassesAsDocumented(h, compact))
       <==> Word(compact) == 0 || MirroredTarget(compact)
  {
    if CompactValue(compact) < Pow256(32) {
      SmallZero(compact);
      SymmetryExact(compact);
      SmallTargetRead(compact);
      DocumentedWhenRead(compact);
    } else {
      LargeTargetRefuses(compact, 32);
    }
  }

  lemma KnownTargetsAsymmetric()
    ensures !SymmetricTarget(0x1d00ffff) && !SymmetricTarget(0x0400ffff)
  {
  }
}
