/** The wallet object for one seed, and the payment it builds. */
module WalletObjects {
  import opened Bytes
  import opened Types
  import opened Txid
  import opened Consensus
  import opened Utxo
  import opened Chain
  import opened Supply
  import opened Coins
  import opened WalletSpec

  class Wallet {
    const decode: Decoder
    const derive: u32 -> string
    const priv: u32 -> seq<byte>
    var keys: map<string, seq<byte>>

    ghost predicate Valid()
      reads this
    {
      Coherent(decode, derive, keys)
    }

    constructor (decode: Decoder, derive: u32 -> string, priv: u32 -> seq<byte>)
      ensures this.decode == decode && this.derive == derive && this.priv == priv
      ensures Valid() && keys == map[]
    {
      this.decode, this.derive, this.priv := decode, derive, priv;
      keys := map[];
    }

    /** The next index is the number of keys, cast to 32 bits; failed and repeated derivations add nothing. */
    method GenerateNewAddress() returns (addr: string)
      requires Valid()
      modifies this
      ensures Valid()
      ensures addr == derive(|old(keys)| % MAX_KEYS)
      ensures keys == if addr == "" then old(keys) else old(keys)[addr := decode(addr)]
      ensures |old(keys)| <= |keys| <= |old(keys)| + 1
    {
      var index: u32 := |keys| % MAX_KEYS;
      addr := derive(index);
      if addr != "" {
        AddKeyCoherent(decode, derive, keys, index);
        keys := keys[addr := decode(addr)];
      }
    }

    method HoldsHash(h: seq<byte>) returns (held: bool)
      ensures held == HeldByKey(keys, h)
    {
      var todo := keys.Keys;
      while todo != {}
        invariant todo <= keys.Keys
        invariant forall a :: a in keys && a !in todo ==> !(|keys[a]| == 20 && keys[a] == h)
        decreases todo
      {
        var a :| a in todo;
        if |keys[a]| == 20 && keys[a] == h {
          return true;
        }
        todo := todo - {a};
      }
      return false;
    }

    method IsMine(s: Script) returns (mine: bool)
      ensures mine == ByKey(keys)(s)
    {
      mine := false;
      if IsP2pkh(s) {
        mine := HoldsHash(ScriptHash(s));
      }
    }

    method SumMine(snap: seq<Coin>) returns (sum: u64)
      ensures sum == SumCreated(Filter(ByKey(keys), snap)) % TWO64
    {
      sum := 0;
      ghost var mine := ByKey(keys);
      assert snap[0..] == snap;
      for i := 0 to |snap|
        invariant Counting(mine, snap, i, sum) == Counting(mine, snap, 0, 0)
      {
        BalanceStep(mine, snap, i, sum);
        var held := IsMine(snap[i].1.scriptPubkey);
        sum := if held then Plus64(sum, snap[i].1.amount) else sum;
      }
      assert SumCreated(Filter(mine, [])) == 0;
    }

    /** The balance, in 64 bits: the total of the coins some key holds, in whatever order they are listed. */
    method GetBalance(snap: seq<Coin>, ghost m: UtxoMap) returns (sum: u64)
      requires Lists(snap, m)
      ensures sum == Total(Restrict(ByKey(keys), m)) % TWO64
    {
      sum := SumMine(snap);
      FilterTotal(ByKey(keys), snap, m);
    }

    method DerivesHash(h: seq<byte>) returns (held: bool)
      requires |keys| <= MAX_KEYS
      ensures held == HeldByIndex(decode, derive, |keys|, h)
    {
      for i := 0 to |keys|
        invariant forall k: u32 :: k < i ==> !(|decode(derive(k))| == 20 && decode(derive(k)) == h)
      {
        var a := derive(i);
        var hh := decode(a);
        if |hh| == 20 && hh == h {
          return true;
        }
      }
      return false;
    }

    /** The coins a payment may spend, in the order of the listing. */
    method GatherCoins(snap: seq<Coin>) returns (coins: seq<Coin>)
      requires |keys| <= MAX_KEYS
      ensures coins == Filter(ByIndex(decode, derive, |keys|), snap)
    {
      coins := [];
      ghost var mine := ByIndex(decode, derive, |keys|);
      assert snap[0..] == snap;
      assert coins + Filter(mine, snap) == Filter(mine, snap);
      for i := 0 to |snap|
        invariant coins + Filter(mine, snap[i..]) == Filter(mine, snap)
      {
        assert snap[i..][1..] == snap[i + 1..];
        FilterNext(mine, snap, i, coins);
        var s := snap[i].1.scriptPubkey;
        if IsP2pkh(s) {
          var held := DerivesHash(ScriptHash(s));
          if held {
            coins := coins + [snap[i]];
          }
        }
      }
    }

    method LookupKey(s: Script) returns (key: Option<seq<byte>>)
      requires |keys| <= MAX_KEYS
      ensures key == KeyFor(decode, derive, priv, |keys|, s)
    {
      if !IsP2pkh(s) { return None; }
      var h := ScriptHash(s);
      var addr := "";
      var j := 0;
      while j < |keys|
        invariant 0 <= j <= |keys|
        invariant FindIndex(decode, derive, |keys|, h, j) == FindIndex(decode, derive, |keys|, h, 0)
        invariant addr == ""
      {
        var hh := decode(derive(j));
        if |hh| == 20 && hh == h {
          addr := derive(j);
          break;
        }
        j := j + 1;
      }
      if addr == "" { return None; }
      var i := 0;
      while i < |keys|
        invariant 0 <= i <= |keys|
        invariant FindAddress(derive, |keys|, addr, i) == FindAddress(derive, |keys|, addr, 0)
      {
        if derive(i) == addr {
          if |priv(i)| != 32 { return None; }
          return Some(priv(i));
        }
        i := i + 1;
      }
      return None;
    }

    method SignInput(i: TxInput, coins: UtxoMap, sign: Signer, digest: Hash) returns (r: Option<TxInput>)
      requires |keys| <= MAX_KEYS
      ensures r == SignedInput(decode, derive, priv, |keys|, sign, coins, digest, i)
    {
      var op := i.Spends();
      if op !in coins { return None; }
      var key := LookupKey(coins[op].scriptPubkey);
      if key.None? { return None; }
      var sp := sign(key.value, digest);
      if sp.None? { return None; }
      r := Some(i.(signature := sp.value.0, pubkey := sp.value.1));
    }

    /** What signing does to one input of the transaction. */
    ghost function SignsAs(sign: Signer, coins: UtxoMap, digest: Hash): TxInput -> Option<TxInput>
      requires |keys| <= MAX_KEYS
      reads this
    {
      InputSigner(decode, derive, priv, |keys|, sign, coins, digest)
    }

    /**
     Signs every input with the key of the coin it spends, or stops at the first that cannot be signed. Only
     signatures and public keys change, on failure too, so the id of the transaction does not.
     */
    method SignTransaction(H: HashFn, tx: Transaction, coins: UtxoMap, sign: Signer)
        returns (ok: bool, signed: Transaction)
      requires |keys| <= MAX_KEYS
      ensures signed == tx.(inputs := signed.inputs) && CoreOf(signed) == CoreOf(tx)
      ensures ok <==> forall i :: 0 <= i < |tx.inputs| ==> SignsAs(sign, coins, H(SignedBytes(tx)))(tx.inputs[i]).Some?
      ensures ok ==> |signed.inputs| == |tx.inputs| && forall i :: 0 <= i < |tx.inputs| ==>
                SignedBy(decode, derive, priv, |keys|, sign, coins, H(SignedBytes(tx)), tx.inputs[i], signed.inputs[i])
      ensures !ok ==> StoppedSigning(SignsAs(sign, coins, H(SignedBytes(tx))), tx.inputs, signed.inputs)
    {
      var digest := Digest(H, tx);
      ghost var signOne := SignsAs(sign, coins, digest);
      var ins := tx.inputs;
      ok := true;
      for i := 0 to |tx.inputs|
        invariant SignedPrefix(signOne, tx.inputs, ins, i)
      {
        var one := SignInput(tx.inputs[i], coins, sign, digest);
        if one.None? {
          SignedSpends(signOne, tx.inputs, ins, i);
          return false, tx.(inputs := ins);
        }
        SignNext(signOne, tx.inputs, ins, i, one.value);
        ins := ins[i := one.value];
      }
      SignedSpends(signOne, tx.inputs, ins, |tx.inputs|);
      signed := tx.(inputs := ins);
      forall k | 0 <= k < |tx.inputs|
        ensures SignedBy(decode, derive, priv, |keys|, sign, coins, digest, tx.inputs[k], ins[k])
      {
        SignedInputExact(decode, derive, priv, |keys|, sign, coins, digest, tx.inputs[k]);
      }
    }
  }

  /** 64-bit addition. */
  function Plus64(a: u64, b: u64): u64 { (a + b) % TWO64 }

  lemma AddWrapped(sum: nat, amount: nat, rest: nat)
    ensures ((sum + amount) % TWO64 + rest) % TWO64 == (sum + (amount + rest)) % TWO64
  {
    var q := (sum + amount) / TWO64;
    assert (sum + amount) % TWO64 == sum + amount - q * TWO64;
    assert (sum + (amount + rest) - q * TWO64) % TWO64 == (sum + (amount + rest)) % TWO64;
  }

  /** The balance in 64 bits once the coins from i on are added to `sum`. */
  function Counting(mine: Script -> bool, snap: seq<Coin>, i: nat, sum: u64): u64
    requires i <= |snap|
  {
    (sum + SumCreated(Filter(mine, snap[i..]))) % TWO64
  }

  lemma BalanceStep(mine: Script -> bool, snap: seq<Coin>, i: nat, sum: u64)
    requires i < |snap|
    ensures Counting(mine, snap, i + 1, if mine(snap[i].1.scriptPubkey) then Plus64(sum, snap[i].1.amount) else sum)
         == Counting(mine, snap, i, sum)
  {
    FilteredSumNext(mine, snap, i);
    AddWrapped(sum, snap[i].1.amount, SumCreated(Filter(mine, snap[i + 1..])));
  }

  lemma FilteredSumNext(mine: Script -> bool, snap: seq<Coin>, i: nat)
    requires i < |snap|
    ensures SumCreated(Filter(mine, snap[i..]))
         == (if mine(snap[i].1.scriptPubkey) then snap[i].1.amount else 0) + SumCreated(Filter(mine, snap[i + 1..]))
  {
    var tail := Filter(mine, snap[i + 1..]);
    assert snap[i..][1..] == snap[i + 1..];
    if mine(snap[i].1.scriptPubkey) {
      SumOneMore(snap[i], tail);
    } else {
      assert Filter(mine, snap[i..]) == tail;
    }
  }

  lemma FilterNext(mine: Script -> bool, snap: seq<Coin>, i: nat, done: seq<Coin>)
    requires i < |snap|
    ensures done + Filter(mine, snap[i..])
         == (if mine(snap[i].1.scriptPubkey) then done + [snap[i]] else done) + Filter(mine, snap[i + 1..])
  {
    assert snap[i..][1..] == snap[i + 1..];
    assert done + ([] + Filter(mine, snap[i + 1..])) == done + Filter(mine, snap[i + 1..]);
  }

  /** Storing the address of the next index keeps the keys in step with the indices. */
  lemma AddKeyCoherent(decode: Decoder, derive: u32 -> string, keys: map<string, seq<byte>>, index: u32)
    requires Coherent(decode, derive, keys) && index == |keys| % MAX_KEYS && derive(index) != ""
    ensures Coherent(decode, derive, keys[derive(index) := decode(derive(index))])
    ensures |keys| <= |keys[derive(index) := decode(derive(index))]| <= |keys| + 1
  {
    var a := derive(index);
    var more := keys[a := decode(a)];
    if a in keys {
      assert more == keys;
    } else {
      assert index < |keys| ==> derive(index) in keys;
      AddNewKeyCoherent(decode, derive, keys, index);
    }
  }

  lemma AddNewKeyCoherent(decode: Decoder, derive: u32 -> string, keys: map<string, seq<byte>>, index: u32)
    requires Coherent(decode, derive, keys) && index == |keys| < MAX_KEYS
    requires derive(index) !in keys && derive(index) != ""
    ensures Coherent(decode, derive, keys[derive(index) := decode(derive(index))])
    ensures |keys[derive(index) := decode(derive(index))]| == |keys| + 1
  {
    var a := derive(index);
    var more := keys[a := decode(a)];
    OneMoreKey(keys, a, decode(a));
    KeysDecoded(decode, keys, a);
    MoreCoherent(decode, derive, keys, more, a);
  }

  lemma MoreCoherent(decode: Decoder, derive: u32 -> string,
                     keys: map<string, seq<byte>>, more: map<string, seq<byte>>, a: string)
    requires Coherent(decode, derive, keys) && |more| == |keys| + 1 <= MAX_KEYS
    requires more.Keys == keys.Keys + {a} && derive(|keys|) == a && a != ""
    requires forall b :: b in more ==> more[b] == decode(b)
    ensures Coherent(decode, derive, more)
  {
    NewKeyListed(derive, keys, more, a);
    IndicesListed(derive, keys, more, a);
  }

  lemma OneMoreKey(keys: map<string, seq<byte>>, a: string, h: seq<byte>)
    requires a !in keys
    ensures keys[a := h].Keys == keys.Keys + {a} && |keys[a := h]| == |keys| + 1
  {
    assert keys[a := h].Keys == keys.Keys + {a};
    assert |keys[a := h]| == |keys.Keys + {a}|;
  }

  lemma KeysDecoded(decode: Decoder, keys: map<string, seq<byte>>, a: string)
    requires forall b :: b in keys ==> keys[b] == decode(b)
    ensures forall b :: b in keys[a := decode(a)] ==> keys[a := decode(a)][b] == decode(b)
  {
  }

  lemma IndicesListed(derive: u32 -> string, keys: map<string, seq<byte>>, more: map<string, seq<byte>>, a: string)
    requires forall i: u32 :: i < |keys| ==> derive(i) in keys && derive(i) != ""
    requires |more| == |keys| + 1 <= MAX_KEYS && more.Keys == keys.Keys + {a} && derive(|keys|) == a && a != ""
    ensures forall i: u32 :: i < |more| ==> derive(i) in more && derive(i) != ""
  {
  }

  lemma NewKeyListed(derive: u32 -> string, keys: map<string, seq<byte>>, more: map<string, seq<byte>>, a: string)
    requires forall b :: b in keys ==> exists i: u32 :: i < |keys| && derive(i) == b
    requires |more| == |keys| + 1 <= MAX_KEYS && more.Keys == keys.Keys + {a} && derive(|keys|) == a
    ensures forall b :: b in more ==> exists i: u32 :: i < |more| && derive(i) == b
  {
    forall b | b in more
      ensures exists i: u32 :: i < |more| && derive(i) == b
    {
      if b == a {
        var i: u32 := |keys|;
        assert i < |more| && derive(i) == b;
      } else {
        var i: u32 :| i < |keys| && derive(i) == b;
        assert i < |more| && derive(i) == b;
      }
    }
  }

  // ---------- the payment ----------

  /** 64-bit subtraction. */
  function Minus64(a: u64, b: u64): u64 { (a - b) % TWO64 }

  /** How many coins the selection takes once `total` is selected, everything in 64 bits. */
  function TakenFrom(coins: seq<Coin>, need: u64, total: u64): (k: nat)
    ensures k <= |coins| && (k == 0 <==> coins == [])
  {
    if coins == [] then 0 else
    var more := Plus64(total, coins[0].1.amount);
    if more >= need then 1 else 1 + TakenFrom(coins[1..], need, more)
  }

  /** The coins a payment spends of those gathered. */
  function Selection(coins: seq<Coin>, need: u64): seq<Coin> { coins[..TakenFrom(coins, need, 0)] }

  /** As long as the coins together stay below 2^64, that is the greedy selection. */
  lemma {:induction false} NoWrapTaken(coins: seq<Coin>, need: u64, total: u64)
    requires total + SumCreated(coins) < TWO64 && total <= need
    ensures TakenFrom(coins, need, total) == Taken(coins, need - total)
  {
    if coins != [] {
      var more := total + coins[0].1.amount;
      Below64(more);
      if more < need {
        NoWrapTaken(coins[1..], need, more);
      }
    }
  }

  /** For any coins: no shorter prefix reaches the need in 64 bits, and the whole taken does unless no coin is left. */
  lemma TakenFromExact(coins: seq<Coin>, need: u64)
    ensures forall j :: 0 < j < TakenFrom(coins, need, 0) ==> SumCreated(coins[..j]) % TWO64 < need
    ensures TakenFrom(coins, need, 0) < |coins| ==>
              SumCreated(coins[..TakenFrom(coins, need, 0)]) % TWO64 >= need
  {
    TakenFromPrefix(coins, need, 0, 0);
    assert coins[0..] == coins;
  }

  lemma {:induction false} TakenFromPrefix(coins: seq<Coin>, need: u64, i: nat, total: u64)
    requires i <= |coins| && total == SumCreated(coins[..i]) % TWO64
    ensures var k := i + TakenFrom(coins[i..], need, total);
            && (forall j :: i < j < k ==> SumCreated(coins[..j]) % TWO64 < need)
            && (i < k < |coins| ==> SumCreated(coins[..k]) % TWO64 >= need)
            && (i < |coins| ==> i < k)
    decreases |coins| - i
  {
    if i < |coins| {
      SelectStep(coins, need, i, total);
      var more := Plus64(total, coins[i].1.amount);
      if more < need {
        TakenFromPrefix(coins, need, i + 1, more);
      }
    }
  }

  lemma SelectStep(coins: seq<Coin>, need: u64, i: nat, total: u64)
    requires i < |coins| && total == SumCreated(coins[..i]) % TWO64
    ensures var more := Plus64(total, coins[i].1.amount);
            && more == SumCreated(coins[..i + 1]) % TWO64
            && TakenFrom(coins[i..], need, total)
               == if more >= need then 1 else 1 + TakenFrom(coins[i + 1..], need, more)
  {
    SumPrefix(coins, i);
    AddWrapped(SumCreated(coins[..i]), 0, coins[i].1.amount);
    assert coins[i..][1..] == coins[i + 1..];
  }

  /** Takes coins in order until they are enough, and says whether they are. */
  method SelectCoins(coins: seq<Coin>, amount: u64, fee: u64)
      returns (selected: seq<Coin>, total: u64, enough: bool)
    ensures selected == Selection(coins, Plus64(amount, fee))
    ensures total == SumCreated(selected) % TWO64 && enough == (total >= Plus64(amount, fee))
  {
    total, selected := 0, [];
    var need := Plus64(amount, fee);
    assert coins[0..] == coins;
    for i := 0 to |coins|
      invariant selected == coins[..i] && total == SumCreated(coins[..i]) % TWO64
      invariant TakenFrom(coins, need, 0) == i + TakenFrom(coins[i..], need, total)
    {
      SelectStep(coins, need, i, total);
      assert coins[..i + 1] == coins[..i] + [coins[i]];
      selected := selected + [coins[i]];
      total := Plus64(total, coins[i].1.amount);
      if total >= need {
        return selected, total, true;
      }
    }
    enough := total >= need;
  }

  /** Without wrap in the coins: enough exactly when all coins are, and no shorter prefix is. */
  lemma SelectionExact(coins: seq<Coin>, need: u64)
    requires SumCreated(coins) < TWO64
    ensures SumCreated(Selection(coins, need)) <= SumCreated(coins)
    ensures SumCreated(Selection(coins, need)) >= need <==> SumCreated(coins) >= need
    ensures forall j :: 0 < j < |Selection(coins, need)| ==> SumCreated(coins[..j]) < need
  {
    NoWrapTaken(coins, need, 0);
    SumPrefix(coins, TakenFrom(coins, need, 0));
    if need > 0 {
      TakenExact(coins, need);
    }
  }

  function OutpointsOf(coins: seq<Coin>): (ops: seq<OutPoint>)
    ensures |ops| == |coins| && forall i :: 0 <= i < |coins| ==> ops[i] == coins[i].0
  {
    if coins == [] then [] else [coins[0].0] + OutpointsOf(coins[1..])
  }

  method BuildInputs(selected: seq<Coin>) returns (ins: seq<TxInput>)
    ensures Spends(ins) == OutpointsOf(selected)
  {
    ins := [];
    for i := 0 to |selected|
      invariant |ins| == i
      invariant forall k :: 0 <= k < i ==> ins[k].Spends() == selected[k].0
    {
      ins := ins + [TxInput(selected[i].0.hash, selected[i].0.index, [], [])];
    }
  }

  /** Where a payment goes: the destination's script and the change script. */
  datatype Recipients = Recipients(dest: Script, change: Script)

  /** The destination, and the change when there is any, in 64 bits. */
  function PaymentOutputs(to: Recipients, amount: u64, fee: u64, total: u64): seq<TxOutput> {
    var change := Minus64(Minus64(total, amount), fee);
    [TxOutput(amount, to.dest)] + if change > 0 then [TxOutput(change, to.change)] else []
  }

  /** A payment of `amount` from these coins: every input is one of them, and these are the outputs. */
  ghost predicate Pays(tx: Transaction, selected: seq<Coin>, m: UtxoMap, to: Recipients, amount: u64, fee: u64) {
    && tx.version == 1 && tx.lockTime == 0
    && Spends(tx.inputs) == OutpointsOf(selected)
    && Distinct(Spends(tx.inputs)) && AsSet(Spends(tx.inputs)) <= m.Keys
    && SumSpent(m, Spends(tx.inputs)) == SumCreated(selected)
    && tx.outputs == PaymentOutputs(to, amount, fee, SumCreated(selected) % TWO64)
  }

  /** What 64 bits add to a sum of two numbers below 2^64 when they drop its carry. */
  function Carry(amount: u64, fee: u64): nat { if amount + fee < TWO64 then 0 else TWO64 }

  /** Where the selected total covers the 64-bit need, the outputs are total less fee, and the lost carry. */
  lemma PaymentSum(to: Recipients, amount: u64, fee: u64, total: u64)
    requires total >= Plus64(amount, fee)
    ensures SumOutputs(PaymentOutputs(to, amount, fee, total)) + fee == total + Carry(amount, fee)
  {
    var change := Minus64(Minus64(total, amount), fee);
    ChangeExact(amount, fee, total);
    SumOneOutput(TxOutput(amount, to.dest));
    SumTwoOutputs(TxOutput(amount, to.dest), TxOutput(change, to.change));
    assert [TxOutput(amount, to.dest)] + [] == [TxOutput(amount, to.dest)];
  }

  lemma ChangeExact(amount: u64, fee: u64, total: u64)
    requires total >= Plus64(amount, fee)
    ensures Minus64(Minus64(total, amount), fee) == total + Carry(amount, fee) - (amount + fee)
  {
  }

  /**
   A payment pays out no more than its coins exactly when amount and fee together stay below 2^64;
   otherwise it pays out more by 2^64 less the fee.
   */
  lemma PaymentConservesExactly(tx: Transaction, selected: seq<Coin>, m: UtxoMap, to: Recipients,
                                amount: u64, fee: u64)
    requires Pays(tx, selected, m, to, amount, fee) && Plus64(amount, fee) <= SumCreated(selected) < TWO64
    ensures TxConserves(m, tx) <==> amount + fee < TWO64
    ensures amount + fee < TWO64 ==> SumOutputs(tx.outputs) + fee == SumSpent(m, Spends(tx.inputs))
    ensures amount + fee >= TWO64 ==> SumOutputs(tx.outputs) == SumSpent(m, Spends(tx.inputs)) + (TWO64 - fee)
  {
    Below64(SumCreated(selected));
    PaymentSum(to, amount, fee, SumCreated(selected));
    CarryDecides(SumOutputs(tx.outputs), SumCreated(selected), amount, fee);
  }

  lemma Below64(x: nat)
    requires x < TWO64
    ensures x % TWO64 == x
  {
  }

  lemma CarryDecides(out: nat, spent: nat, amount: u64, fee: u64)
    requires out + fee == spent + Carry(amount, fee)
    ensures out <= spent <==> amount + fee < TWO64
    ensures amount + fee >= TWO64 ==> out == spent + (TWO64 - fee)
  {
  }

  /** One coin of 1000, 150 to send and a fee of 2^64 - 100: 1100 are paid out. */
  lemma WrappedPayment(to: Recipients)
    ensures PaymentOutputs(to, 150, TWO64 - 100, 1000) == [TxOutput(150, to.dest), TxOutput(950, to.change)]
    ensures Plus64(150, TWO64 - 100) == 50
    ensures SumOutputs(PaymentOutputs(to, 150, TWO64 - 100, 1000)) == 1100
  {
    PaymentSum(to, 150, TWO64 - 100, 1000);
  }

  /** The scripts of a payment: change goes to the next address. */
  function RecipientsOf(decode: Decoder, derive: u32 -> string, n: nat, dest: string): Recipients {
    Recipients(PayTo(decode(dest)), PayTo(decode(derive(n % MAX_KEYS))))
  }

  lemma {:induction false} SpentIsSelected(mine: Script -> bool, coins: seq<Coin>, m: UtxoMap)
    requires Picked(mine, coins, m)
    ensures SumSpent(m, OutpointsOf(coins)) == SumCreated(coins)
    decreases |coins|
  {
    if coins != [] {
      var tail := coins[1..];
      forall i | 0 <= i < |tail|
        ensures tail[i] == coins[i + 1]
      {
      }
      SpentIsSelected(mine, tail, m);
      assert OutpointsOf(coins)[1..] == OutpointsOf(tail);
    }
  }

  lemma PickedPrefix(mine: Script -> bool, coins: seq<Coin>, m: UtxoMap, k: nat)
    requires Picked(mine, coins, m) && k <= |coins|
    ensures Picked(mine, coins[..k], m)
    ensures Distinct(OutpointsOf(coins[..k])) && AsSet(OutpointsOf(coins[..k])) <= m.Keys
  {
    var some := coins[..k];
    assert forall i :: 0 <= i < k ==> some[i] == coins[i];
  }

  lemma SumOneOutput(o: TxOutput)
    ensures SumOutputs([o]) == o.amount
  {
    assert [o][..0] == [];
  }

  lemma SumTwoOutputs(o: TxOutput, p: TxOutput)
    ensures SumOutputs([o, p]) == o.amount + p.amount
  {
    SumOneOutput(o);
    assert [o, p][..1] == [o];
  }

  /** The outputs of a payment; change takes a new address. */
  method BuildOutputs(w: Wallet, dest: string, amount: u64, fee: u64, total: u64) returns (outs: seq<TxOutput>)
    requires w.Valid()
    modifies w
    ensures w.Valid() && |old(w.keys)| <= |w.keys|
    ensures outs == PaymentOutputs(RecipientsOf(w.decode, w.derive, |old(w.keys)|, dest), amount, fee, total)
  {
    outs := [TxOutput(amount, PayTo(w.decode(dest)))];
    var change := Minus64(Minus64(total, amount), fee);
    if change > 0 {
      var addr := w.GenerateNewAddress();
      outs := outs + [TxOutput(change, PayTo(w.decode(addr)))];
    }
  }

  /** The wallet's own coins in listing order. */
  ghost function Gathered(decode: Decoder, derive: u32 -> string, n: nat, snap: seq<Coin>): seq<Coin> {
    Filter(ByIndex(decode, derive, n), snap)
  }

  /** The coins of a payment: distinct coins of the wallet. */
  ghost predicate Chosen(mine: Script -> bool, chosen: seq<Coin>, m: UtxoMap) {
    && Picked(mine, chosen, m)
    && Distinct(OutpointsOf(chosen)) && AsSet(OutpointsOf(chosen)) <= m.Keys
    && SumSpent(m, OutpointsOf(chosen)) == SumCreated(chosen)
  }

  lemma SelectionChosen(mine: Script -> bool, coins: seq<Coin>, m: UtxoMap, need: u64)
    requires Picked(mine, coins, m)
    ensures Chosen(mine, Selection(coins, need), m)
  {
    PickedPrefix(mine, coins, m, TakenFrom(coins, need, 0));
    SpentIsSelected(mine, Selection(coins, need), m);
  }

  /** Gathering and selecting, for any amounts. */
  method ChooseCoins(w: Wallet, amount: u64, fee: u64, snap: seq<Coin>, ghost m: UtxoMap)
      returns (chosen: seq<Coin>, total: u64, enough: bool)
    requires w.Valid() && Lists(snap, m)
    ensures chosen == Selection(Gathered(w.decode, w.derive, |w.keys|, snap), Plus64(amount, fee))
    ensures total == SumCreated(chosen) % TWO64 && enough == (total >= Plus64(amount, fee))
    ensures Chosen(ByIndex(w.decode, w.derive, |w.keys|), chosen, m)
  {
    ghost var mine := ByIndex(w.decode, w.derive, |w.keys|);
    var coins := w.GatherCoins(snap);
    FilterPicks(mine, snap, m);
    SelectionChosen(mine, coins, m, Plus64(amount, fee));
    chosen, total, enough := SelectCoins(coins, amount, fee);
  }

  /** While the balance is below 2^64: a shortest sufficient prefix, enough exactly when the balance is. */
  lemma SelectionIsShortest(decode: Decoder, derive: u32 -> string, keys: map<string, seq<byte>>,
                            snap: seq<Coin>, m: UtxoMap, need: u64)
    requires Coherent(decode, derive, keys) && Lists(snap, m) && Total(Restrict(ByKey(keys), m)) < TWO64
    ensures var chosen := Selection(Gathered(decode, derive, |keys|, snap), need);
            && SumCreated(chosen) <= Total(Restrict(ByKey(keys), m))
            && (SumCreated(chosen) >= need <==> Total(Restrict(ByKey(keys), m)) >= need)
            && forall j :: 0 < j < |chosen| ==> SumCreated(chosen[..j]) < need
  {
    var coins := Gathered(decode, derive, |keys|, snap);
    GatheredIsBalance(decode, derive, keys, snap, m);
    SelectionExact(coins, need);
    forall j | 0 < j < |Selection(coins, need)|
      ensures SumCreated(Selection(coins, need)[..j]) < need
    {
      assert Selection(coins, need)[..j] == coins[..j];
    }
  }

  /** What a payment starts from: the number of keys, the coins gathered and the balance. */
  ghost predicate StartsFrom(w: Wallet, snap: seq<Coin>, m: UtxoMap, n: nat, coins: seq<Coin>, balance: nat)
    reads w
  {
    && n == |w.keys| && coins == Gathered(w.decode, w.derive, n, snap)
    && balance == Total(Restrict(ByKey(w.keys), m))
  }

  /**
   The unsigned payment, when the selected coins cover the 64-bit sum of amount and fee. While the balance
   is below 2^64 that is when the balance does; then the payment pays out no more than its coins exactly
   when amount plus fee does not wrap.
   */
  method BuildPayment(w: Wallet, dest: string, amount: u64, fee: u64, snap: seq<Coin>,
                      ghost m: UtxoMap, ghost n: nat, ghost coins: seq<Coin>, ghost balance: nat)
      returns (r: Option<Transaction>, ghost chosen: seq<Coin>)
    requires w.Valid() && Lists(snap, m) && StartsFrom(w, snap, m, n, coins, balance)
    modifies w
    ensures w.Valid() && n <= |w.keys|
    ensures chosen == Selection(coins, Plus64(amount, fee)) && Chosen(ByIndex(w.decode, w.derive, n), chosen, m)
    ensures r.Some? <==> SumCreated(chosen) % TWO64 >= Plus64(amount, fee)
    ensures r.Some? ==> Pays(r.value, chosen, m, RecipientsOf(w.decode, w.derive, n, dest), amount, fee)
    ensures balance < TWO64 ==> (r.Some? <==> balance >= Plus64(amount, fee))
    ensures balance < TWO64 && r.Some? ==> (TxConserves(m, r.value) <==> amount + fee < TWO64)
  {
    var selected, total, enough := ChooseCoins(w, amount, fee, snap, m);
    chosen := selected;
    ghost var to := RecipientsOf(w.decode, w.derive, n, dest);
    if balance < TWO64 {
      SelectionIsShortest(w.decode, w.derive, w.keys, snap, m, Plus64(amount, fee));
      Below64(SumCreated(chosen));
    }
    if !enough {
      return None, chosen;
    }
    var ins := BuildInputs(selected);
    var outs := BuildOutputs(w, dest, amount, fee, total);
    r := Some(Transaction(1, ins, outs, 0));
    if balance < TWO64 {
      PaymentConservesExactly(r.value, chosen, m, to, amount, fee);
    }
  }

  /** A key library that signs everything and a seed whose private keys all have 32 bytes. */
  ghost predicate SignsAlways(sign: Signer, priv: u32 -> seq<byte>) {
    (forall k, d :: sign(k, d).Some?) && forall i: u32 :: |priv(i)| == 32
  }

  lemma MoreKeysHoldMore(decode: Decoder, derive: u32 -> string, n: nat, n': nat, s: Script)
    requires n <= n' && ByIndex(decode, derive, n)(s)
    ensures ByIndex(decode, derive, n')(s)
  {
    var i: u32 :| i < n && |decode(derive(i))| == 20 && decode(derive(i)) == ScriptHash(s);
    assert i < n';
  }

  /** Every coin chosen before the change address was added can be signed for after it. */
  lemma ChosenSigned(w: Wallet, sign: Signer, m: UtxoMap, digest: Hash, tx: Transaction,
                     chosen: seq<Coin>, n: nat)
    requires w.Valid() && n <= |w.keys| && SignsAlways(sign, w.priv)
    requires Chosen(ByIndex(w.decode, w.derive, n), chosen, m)
    requires Spends(tx.inputs) == OutpointsOf(chosen)
    ensures forall i :: 0 <= i < |tx.inputs| ==>
              SignedInput(w.decode, w.derive, w.priv, |w.keys|, sign, m, digest, tx.inputs[i]).Some?
  {
    forall i | 0 <= i < |tx.inputs|
      ensures SignedInput(w.decode, w.derive, w.priv, |w.keys|, sign, m, digest, tx.inputs[i]).Some?
    {
      var op := tx.inputs[i].Spends();
      assert op == OutpointsOf(chosen)[i] == chosen[i].0;
      var s := m[op].scriptPubkey;
      MoreKeysHoldMore(w.decode, w.derive, n, |w.keys|, s);
      KeyFound(w.decode, w.derive, w.priv, |w.keys|, s);
    }
  }

  /** What the memory pool asks of a payment: an input, and outputs within the money limit. */
  ghost predicate PoolTakes(chosen: seq<Coin>, outs: seq<TxOutput>) {
    chosen != [] && SumOutputs(outs) <= MAX_MONEY
  }

  /** The coins cover the 64-bit need, and the memory pool takes the payment. */
  ghost predicate PaymentTaken(chosen: seq<Coin>, to: Recipients, amount: u64, fee: u64) {
    var total := SumCreated(chosen) % TWO64;
    total >= Plus64(amount, fee) && PoolTakes(chosen, PaymentOutputs(to, amount, fee, total))
  }

  /**
   The whole payment, for any amounts: with a key library that signs, it succeeds exactly when the coins
   selected cover the 64-bit sum of amount and fee, there is one, and the outputs are within the money
   limit. It is well formed; it meets what the supply bound asks of a transaction exactly when amount plus
   fee does not wrap.
   */
  method SendToAddress(w: Wallet, H: HashFn, dest: string, amount: u64, fee: u64, snap: seq<Coin>,
                       m: UtxoMap, sign: Signer, ghost n: nat, ghost coins: seq<Coin>, ghost balance: nat)
      returns (r: Option<Transaction>, ghost chosen: seq<Coin>)
    requires w.Valid() && Lists(snap, m) && StartsFrom(w, snap, m, n, coins, balance)
    modifies w
    ensures w.Valid()
    ensures chosen == Selection(coins, Plus64(amount, fee)) && Chosen(ByIndex(w.decode, w.derive, n), chosen, m)
    ensures SignsAlways(sign, w.priv) ==>
              (r.Some? <==> PaymentTaken(chosen, RecipientsOf(w.decode, w.derive, n, dest), amount, fee))
    ensures r.Some? ==> Pays(r.value, chosen, m, RecipientsOf(w.decode, w.derive, n, dest), amount, fee)
    ensures r.Some? ==> ValidTransaction(r.value) && forall i :: 0 <= i < |r.value.inputs| ==>
              SignedBy(w.decode, w.derive, w.priv, |w.keys|, sign, m, H(SignedBytes(r.value)),
                       r.value.inputs[i], r.value.inputs[i])
    ensures r.Some? && balance < TWO64 ==> (TxConserves(m, r.value) <==> amount + fee < TWO64)
  {
    ghost var to := RecipientsOf(w.decode, w.derive, n, dest);
    var built;
    built, chosen := BuildPayment(w, dest, amount, fee, snap, m, n, coins, balance);
    if built.None? {
      return None, chosen;
    }
    var tx := built.value;
    ghost var digest := Digest(H, tx);
    if SignsAlways(sign, w.priv) {
      ChosenSigned(w, sign, m, digest, tx, chosen, n);
    }
    var ok, signed := w.SignTransaction(H, tx, m, sign);
    if !ok {
      return None, chosen;
    }
    SignedBytesByCore(tx, signed);
    SignedByOwn(w, sign, m, H(SignedBytes(tx)), tx.inputs, signed.inputs);
    PaysOnlyByCore(tx, signed, chosen, m, to, amount, fee);
    PaymentValid(signed, chosen, m, to, amount, fee);
    var valid := ValidateTransactionStructure(signed);
    if !valid {
      return None, chosen;
    }
    r := Some(signed);
  }

  /** Which coin an input spends does not change when it is signed. */
  lemma SignedByOwn(w: Wallet, sign: Signer, m: UtxoMap, digest: Hash, before: seq<TxInput>, after: seq<TxInput>)
    requires |before| == |after|
    requires forall i :: 0 <= i < |before| ==>
               SignedBy(w.decode, w.derive, w.priv, |w.keys|, sign, m, digest, before[i], after[i])
    ensures forall i :: 0 <= i < |after| ==>
              SignedBy(w.decode, w.derive, w.priv, |w.keys|, sign, m, digest, after[i], after[i])
  {
    forall i | 0 <= i < |after|
      ensures SignedBy(w.decode, w.derive, w.priv, |w.keys|, sign, m, digest, after[i], after[i])
    {
      assert SignedBy(w.decode, w.derive, w.priv, |w.keys|, sign, m, digest, before[i], after[i]);
    }
  }

  lemma PaysOnlyByCore(tx: Transaction, signed: Transaction, chosen: seq<Coin>, m: UtxoMap, to: Recipients,
                       amount: u64, fee: u64)
    requires CoreOf(tx) == CoreOf(signed) && Pays(tx, chosen, m, to, amount, fee)
    ensures Pays(signed, chosen, m, to, amount, fee)
    ensures TxConserves(m, signed) <==> TxConserves(m, tx)
  {
  }

  lemma PaymentValid(tx: Transaction, chosen: seq<Coin>, m: UtxoMap, to: Recipients, amount: u64, fee: u64)
    requires Pays(tx, chosen, m, to, amount, fee)
    ensures ValidTransaction(tx) <==> PoolTakes(chosen, tx.outputs)
  {
    assert |OutpointsOf(chosen)| == |tx.inputs|;
  }

  /**
   So with a balance within the money limit a payment is taken exactly when the balance covers the 64-bit
   need, some coin is the wallet's and, if amount and fee wrap, coins and lost carry less fee stay within
   the limit. For a positive need that does not wrap, only the balance counts; for a need of zero, only
   that there is a coin.
   */
  lemma PaymentTakenExactly(decode: Decoder, derive: u32 -> string, keys: map<string, seq<byte>>,
                            snap: seq<Coin>, m: UtxoMap, to: Recipients, amount: u64, fee: u64)
    requires Coherent(decode, derive, keys) && Lists(snap, m) && Total(Restrict(ByKey(keys), m)) <= MAX_MONEY
    ensures var need, balance := Plus64(amount, fee), Total(Restrict(ByKey(keys), m));
            var coins := Gathered(decode, derive, |keys|, snap);
            var chosen := Selection(coins, need);
            var taken := PaymentTaken(chosen, to, amount, fee);
            && (taken <==> balance >= need && coins != []
                           && (amount + fee >= TWO64 ==> SumCreated(chosen) + TWO64 - fee <= MAX_MONEY))
            && (0 < amount + fee < TWO64 ==> (taken <==> balance >= need))
            && (amount + fee == 0 ==> (taken <==> coins != []))
  {
    var need := Plus64(amount, fee);
    var coins := Gathered(decode, derive, |keys|, snap);
    var chosen := Selection(coins, need);
    SelectionIsShortest(decode, derive, keys, snap, m, need);
    GatheredIsBalance(decode, derive, keys, snap, m);
    Below64(SumCreated(chosen));
    var total := SumCreated(chosen);
    var out := SumOutputs(PaymentOutputs(to, amount, fee, total));
    if total >= need {
      PaymentSum(to, amount, fee, total);
    }
    assert coins == [] ==> SumCreated(coins) == 0;
    TakenDecides(Total(Restrict(ByKey(keys), m)), total, out, coins == [], amount, fee);
  }

  /** The same of plain numbers: balance, selected total, outputs. */
  lemma TakenDecides(balance: nat, total: nat, out: nat, none: bool, amount: u64, fee: u64)
    requires total <= balance <= MAX_MONEY && (none ==> balance == 0)
    requires total >= Plus64(amount, fee) <==> balance >= Plus64(amount, fee)
    requires total >= Plus64(amount, fee) ==> out + fee == total + Carry(amount, fee)
    ensures var taken := total >= Plus64(amount, fee) && !none && out <= MAX_MONEY;
            && (taken <==> balance >= Plus64(amount, fee) && !none
                           && (amount + fee >= TWO64 ==> total + TWO64 - fee <= MAX_MONEY))
            && (0 < amount + fee < TWO64 ==> (taken <==> balance >= Plus64(amount, fee)))
            && (amount + fee == 0 ==> (taken <==> !none))
  {
  }
}
