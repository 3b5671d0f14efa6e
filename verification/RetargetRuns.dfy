/** Which intervals make the retarget ask for a target that only the zero hash passes. */
module RetargetRuns {
  import opened Bytes
  import opened Types
  import opened ProofOfWork
  import opened Difficulty
  import opened Chain
  import opened ChainRuns

  // ---------- the size byte after a retarget ----------

  /**
   The size byte after a forward interval of e seconds, from the size byte n of an old target from
   0x01fffffc on.
   */
  function RetargetSize(n: nat, e: nat, height: nat): nat {
    var early := height < 10000;
    if e < 151_125 && SizeGrowsLate(n) then (if early then (8 * n + 3) % 256 else (4 * n + 1) % 256)
    else if e < 604_500 then (if early then 2 * n % 256 else n)
    else if e <= 2_418_000 then n
    else if e <= 9_672_000 then (if early then n / 2 else n)
    else if early then n / 8 else n / 4
  }

  /** A target with this size byte and a mantissa that is neither small nor ends in a zero byte. */
  predicate Sized(t: u32, s: nat) {
    t / 0x100_0000 == s && t % 0x100 != 0 && t % 0x80_0000 >= 0x1_0000
  }

  lemma SizedFrom(s: nat, c: nat)
    requires s < 256 && c < 0x100_0000 && c % 0x100 != 0 && c % 0x80_0000 >= 0x1_0000
    ensures Sized(s * 0x100_0000 + c, s)
  {
  }

  lemma SizedWord(t: u32, s: nat)
    requires Sized(t, s)
    ensures SizeByte(t) == s && (Word(t) == 0 <==> s == 0)
    ensures s >= 3 ==> Word(t) == t % 0x80_0000
  {
  }

  lemma LowByte(t: u32)
    requires t % 0x100 != 0
    ensures t % 0x80_0000 % 0x100 != 0 && t % 0x80_0000 % 0x1_0000 != 0
  {
  }

  /** Such a target is all zero exactly for size byte 0 and from size byte 35 on. */
  lemma SizedZeroExactly(t: u32, s: nat)
    requires Sized(t, s)
    ensures ZeroTarget(t) <==> s == 0 || s >= 35
  {
    SizedWord(t, s);
    LowByte(t);
  }

  /** The basic retarget of such an old target: its size byte with the largest mantissa. */
  function Saturated(n: nat): u32
    requires n < 256
  {
    n * 0x100_0000 + MANTISSA_CAP
  }

  lemma SaturatedGrows(n: nat)
    requires n < 256
    ensures QuadrupleGrows(Saturated(n)) <==> SizeGrowsLate(n)
  {
  }

  lemma DoubledSize(n: nat)
    requires n < 256
    ensures Sized(Saturated(n) * 2 % TWO32, 2 * n % 256)
  {
    assert Saturated(n) * 2 % TWO32 == 2 * n % 256 * 0x100_0000 + 0xff_fffe;
    SizedFrom(2 * n % 256, 0xff_fffe);
  }

  lemma ShortenedSize(n: nat, e: nat, height: nat)
    requires n < 256 && e < 604_500
    ensures Sized(Shortened(Saturated(n), e, height), RetargetSize(n, e, height))
  {
    SaturatedGrows(n);
    if e < 151_125 && SizeGrowsLate(n) {
      FourfoldOfSaturated(n);
      EightfoldOfSaturated(n);
      SizedFrom((4 * n + 1) % 256, 0xff_fffc);
      SizedFrom((8 * n + 3) % 256, 0xff_fff8);
    } else if height < 10000 {
      DoubledSize(n);
    } else {
      SizedFrom(n, MANTISSA_CAP);
    }
  }

  lemma DividedSize(n: nat)
    requires n < 256
    ensures Sized(Saturated(n) / 2, n / 2) && Sized(Saturated(n) / 4, n / 4)
    ensures Sized(Saturated(n) / 4 / 2, n / 8)
  {
    HalvedSize(n);
    QuarteredSize(n);
    assert Saturated(n) / 4 / 2 == n / 8 * 0x100_0000 + (n % 8 * 0x20_0000 + 0x0f_ffff);
    SizedFrom(n / 8, n % 8 * 0x20_0000 + 0x0f_ffff);
  }

  lemma HalvedSize(n: nat)
    requires n < 256
    ensures Sized(Saturated(n) / 2, n / 2)
  {
    assert Saturated(n) / 2 == n / 2 * 0x100_0000 + (n % 2 * 0x80_0000 + 0x3f_ffff);
    SizedFrom(n / 2, n % 2 * 0x80_0000 + 0x3f_ffff);
  }

  lemma QuarteredSize(n: nat)
    requires n < 256
    ensures Sized(Saturated(n) / 4, n / 4)
  {
    assert Saturated(n) / 4 == n / 4 * 0x100_0000 + (n % 4 * 0x40_0000 + 0x1f_ffff);
    SizedFrom(n / 4, n % 4 * 0x40_0000 + 0x1f_ffff);
  }

  lemma LengthenedSize(n: nat, e: nat, height: nat)
    requires n < 256 && e > 2_418_000
    ensures Sized(Lengthened(Saturated(n), e, height), RetargetSize(n, e, height))
  {
    DividedSize(n);
    SizedFrom(n, MANTISSA_CAP);
  }

  lemma RetargetSized(current: u32, last: u64, first: u64, height: nat)
    requires current >= 0x1ff_fffc && first < last
    ensures Sized(AdaptiveNextDifficulty(current, last, first, DIFFICULTY_INTERVAL, height),
                  RetargetSize(SizeByte(current), last - first, height))
  {
    var n, e := SizeByte(current), last - first;
    FastSaturates(current, last, first);
    AdaptiveExact(current, last, first, height);
    if e < 604_500 {
      ShortenedSize(n, e, height);
    } else if e > 2_418_000 {
      LengthenedSize(n, e, height);
    } else {
      SizedFrom(n, MANTISSA_CAP);
    }
  }

  /**
   At every height and after every forward interval, the retarget of a target from 0x01fffffc on is one
   that only the zero hash passes exactly when its size byte becomes 0 or at least 35.
   */
  lemma RetargetZeroExactly(current: u32, last: u64, first: u64, height: nat)
    requires current >= 0x1ff_fffc && first < last
    ensures ZeroTarget(AdaptiveNextDifficulty(current, last, first, DIFFICULTY_INTERVAL, height))
       <==> var s := RetargetSize(SizeByte(current), last - first, height); s == 0 || s >= 35
  {
    RetargetSized(current, last, first, height);
    SizedZeroExactly(AdaptiveNextDifficulty(current, last, first, DIFFICULTY_INTERVAL, height),
                     RetargetSize(SizeByte(current), last - first, height));
  }

  // ---------- the first retarget ----------

  /** When the first retarget locks a chain of the miner's easy target, by the tip's timestamp. */
  predicate EasyStartLocks(last: u64) {
    last < GENESIS_TIME || 0 < last - GENESIS_TIME < 151_125 || last - GENESIS_TIME > 9_672_000
  }

  /** And one of the genesis target. */
  predicate GenesisStartLocks(last: u64) { 0 <= last - GENESIS_TIME < 604_500 }

  function FirstRetarget(current: u32, last: u64): u32 {
    AdaptiveNextDifficulty(current, last, GENESIS_TIME, DIFFICULTY_INTERVAL, 2016)
  }

  lemma KnownSizes()
    ensures SizeByte(EASY_MINE_DIFFICULTY) == 4 && SizeByte(INITIAL_DIFFICULTY) == 29
    ensures EASY_MINE_DIFFICULTY >= 0x1ff_fffc && INITIAL_DIFFICULTY >= 0x1ff_fffc
  {
  }

  /** A tip stamped at genesis leaves the basic retarget as it was and counts as fast. */
  lemma StampedAtGenesis()
    ensures FirstRetarget(EASY_MINE_DIFFICULTY, GENESIS_TIME) == 0x2007_fff8
    ensures FirstRetarget(INITIAL_DIFFICULTY, GENESIS_TIME) == 0xe807_fff8
    ensures !ZeroTarget(0x2007_fff8) && ZeroTarget(0xe807_fff8)
  {
    AdaptiveExact(EASY_MINE_DIFFICULTY, GENESIS_TIME, GENESIS_TIME, 2016);
    AdaptiveExact(INITIAL_DIFFICULTY, GENESIS_TIME, GENESIS_TIME, 2016);
  }

  lemma ElapsedBackward(last: u64)
    requires last < GENESIS_TIME
    ensures Elapsed(last, GENESIS_TIME) > 9_672_000
  {
    assert Elapsed(last, GENESIS_TIME) == last - GENESIS_TIME + TWO64;
  }

  /** A tip stamped before genesis does too, and counts as slow: the difference wraps in 64 bits. */
  lemma StampedBeforeGenesis(last: u64)
    requires last < GENESIS_TIME
    ensures FirstRetarget(EASY_MINE_DIFFICULTY, last) == 0x0080_1fff
    ensures FirstRetarget(INITIAL_DIFFICULTY, last) == 0x03a0_1fff
    ensures ZeroTarget(0x0080_1fff) && !ZeroTarget(0x03a0_1fff)
  {
    ElapsedBackward(last);
    AdaptiveExact(EASY_MINE_DIFFICULTY, last, GENESIS_TIME, 2016);
    AdaptiveExact(INITIAL_DIFFICULTY, last, GENESIS_TIME, 2016);
  }

  /** The targets a first interval eight times too fast leaves. */
  lemma FastFirstRetarget(last: u64)
    requires 0 < last - GENESIS_TIME < 151_125
    ensures FirstRetarget(EASY_MINE_DIFFICULTY, last) == 0x23ff_fff8
    ensures FirstRetarget(INITIAL_DIFFICULTY, last) == 0xebff_fff8
  {
    FastEarlyTarget(EASY_MINE_DIFFICULTY, last, GENESIS_TIME, 2016);
    FastEarlyTarget(INITIAL_DIFFICULTY, last, GENESIS_TIME, 2016);
  }

  /** For every 64-bit timestamp of the block at height 2015. */
  lemma FirstRetargetZeroExactly(last: u64)
    ensures ZeroTarget(FirstRetarget(EASY_MINE_DIFFICULTY, last)) <==> EasyStartLocks(last)
    ensures ZeroTarget(FirstRetarget(INITIAL_DIFFICULTY, last)) <==> GenesisStartLocks(last)
  {
    KnownSizes();
    if last > GENESIS_TIME {
      RetargetZeroExactly(EASY_MINE_DIFFICULTY, last, GENESIS_TIME, 2016);
      RetargetZeroExactly(INITIAL_DIFFICULTY, last, GENESIS_TIME, 2016);
    } else if last == GENESIS_TIME {
      StampedAtGenesis();
    } else {
      StampedBeforeGenesis(last);
    }
  }

  // ---------- chains ----------

  /** The target prescribed for the next block is one that only the zero hash passes. */
  ghost predicate Locked(s: State) { ExpectedTarget(s).Some? && ZeroTarget(ExpectedTarget(s).value) }

  lemma AcceptedPasses(H: HashFn, s: State, x: Submission, target: u32)
    requires Accepted(H, s, x.block, x.height, x.now) && ExpectedTarget(s) == Some(target)
    ensures Passes(BlockHash(H, x.block), target)
  {
    AcceptedExactly(H, s, x);
  }

  /** A locked chain takes no block but one whose hash is zero; on others some other hash passes. */
  lemma LockedExactly(H: HashFn, s: State, x: Submission)
    requires ExpectedTarget(s).Some?
    ensures Locked(s) <==> forall h: Hash :: Passes(h, ExpectedTarget(s).value) ==> h == ZERO_HASH
    ensures Locked(s) && Accepted(H, s, x.block, x.height, x.now) ==> BlockHash(H, x.block) == ZERO_HASH
  {
    OnlyZeroHashExactly(ExpectedTarget(s).value);
    if Accepted(H, s, x.block, x.height, x.now) {
      AcceptedPasses(H, s, x, ExpectedTarget(s).value);
    }
  }

  /** At every retarget height of a chain, by the old target and the time its interval took. */
  lemma RetargetLocksExactly(hash: Block -> Hash, s: State, bs: seq<Block>, current: u32, e: nat)
    requires Holds(hash, s, bs) && s.height >= 2015 && (s.height + 1) % 2016 == 0
    requires bs[s.height].header.difficultyTarget == current >= 0x1ff_fffc
    requires bs[s.height].header.timestamp - bs[s.height - 2015].header.timestamp == e > 0
    ensures Locked(s) <==> var size := RetargetSize(SizeByte(current), e, s.height + 1); size == 0 || size >= 35
  {
    ExpectedAtRetarget(hash, s, bs);
    RetargetZeroExactly(current, bs[s.height].header.timestamp, bs[s.height - 2015].header.timestamp, s.height + 1);
  }

  lemma FirstRetargetExpected(hash: Block -> Hash, s: State, bs: seq<Block>)
    requires Holds(hash, s, bs) && s.height == 2015 && bs[0].header.timestamp == GENESIS_TIME
    ensures ExpectedTarget(s)
         == Some(FirstRetarget(bs[s.height].header.difficultyTarget, bs[s.height].header.timestamp))
  {
    ExpectedAtRetarget(hash, s, bs);
  }

  /**
   A run that reaches height 2015 at the miner's easy target is locked exactly when its tip is stamped
   before genesis, less than 151125 seconds (42 hours) or more than 9672000 seconds (16 weeks) after it;
   at the genesis target, exactly when it is stamped less than 604500 seconds (a week) after genesis.
   */
  lemma FirstRetargetLocksExactly(H: HashFn, stored: bool, subs: seq<Submission>, last: Block)
    requires Run(H, Genesis(H, stored), subs).height == 2015
    requires BlockAt(Run(H, Genesis(H, stored), subs), 2015) == Some(last)
    ensures last.header.difficultyTarget == EASY_MINE_DIFFICULTY ==>
              (Locked(Run(H, Genesis(H, stored), subs)) <==> EasyStartLocks(last.header.timestamp))
    ensures last.header.difficultyTarget == INITIAL_DIFFICULTY ==>
              (Locked(Run(H, Genesis(H, stored), subs)) <==> GenesisStartLocks(last.header.timestamp))
  {
    var s, bs := Run(H, Genesis(H, stored), subs), ChainOf(H, stored, subs);
    GenesisRunHolds(H, stored, subs);
    ChainedBlockAt(HashOf(H), s, bs, s.height);
    FirstRetargetExpected(HashOf(H), s, bs);
    FirstRetargetZeroExactly(last.header.timestamp);
  }
}
