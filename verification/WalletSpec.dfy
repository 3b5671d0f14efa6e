/** The wallet: its addresses, what it takes for its own, and the transactions it builds and signs. */
module WalletSpec {
  import opened Bytes
  import opened Types
  import opened Codec
  import opened Txid
  import opened Utxo
  import opened Supply
  import opened Coins

  const TWO64: nat := 0x1_0000_0000_0000_0000
  const MAX_KEYS: nat := 0x1_0000_0000

  /** How an address is read; the program's own reader is Base58Laws.AddressToPubKeyHash. */
  type Decoder = string -> seq<byte>

  // ---------- recognising coins ----------

  predicate IsP2pkh(s: Script) {
    |s| == 25 && s[0] == 0x76 && s[1] == 0xa9 && s[2] == 0x14 && s[23] == 0x88 && s[24] == 0xac
  }

  function ScriptHash(s: Script): seq<byte>
    requires IsP2pkh(s)
  {
    s[3..23]
  }

  /** The balance's test: some stored hash of 20 bytes is the script's. */
  ghost predicate HeldByKey(keys: map<string, seq<byte>>, h: seq<byte>) {
    exists a :: a in keys && |keys[a]| == 20 && keys[a] == h
  }

  /** The sender's and signer's test: some derived address below the count decodes to the script's hash. */
  ghost predicate HeldByIndex(decode: Decoder, derive: u32 -> string, n: nat, h: seq<byte>) {
    exists i: u32 :: i < n && |decode(derive(i))| == 20 && decode(derive(i)) == h
  }

  ghost function ByKey(keys: map<string, seq<byte>>): Script -> bool {
    (s: Script) => IsP2pkh(s) && HeldByKey(keys, ScriptHash(s))
  }

  ghost function ByIndex(decode: Decoder, derive: u32 -> string, n: nat): Script -> bool {
    (s: Script) => IsP2pkh(s) && HeldByIndex(decode, derive, n, ScriptHash(s))
  }

  /** The stored keys are the addresses derived at the indices below their number, each with its hash. */
  ghost predicate Coherent(decode: Decoder, derive: u32 -> string, keys: map<string, seq<byte>>) {
    && |keys| <= MAX_KEYS
    && (forall i: u32 :: i < |keys| ==> derive(i) in keys && derive(i) != "")
    && (forall a :: a in keys ==> exists i: u32 :: i < |keys| && derive(i) == a)
    && (forall a :: a in keys ==> keys[a] == decode(a))
  }

  /** Both tests recognise the same scripts. */
  lemma TestsAgree(decode: Decoder, derive: u32 -> string, keys: map<string, seq<byte>>, h: seq<byte>)
    requires Coherent(decode, derive, keys)
    ensures HeldByKey(keys, h) <==> HeldByIndex(decode, derive, |keys|, h)
  {
    if HeldByKey(keys, h) {
      var a :| a in keys && |keys[a]| == 20 && keys[a] == h;
      var i: u32 :| i < |keys| && derive(i) == a;
    }
    if HeldByIndex(decode, derive, |keys|, h) {
      var i: u32 :| i < |keys| && |decode(derive(i))| == 20
                    && decode(derive(i)) == h;
      assert derive(i) in keys;
    }
  }

  lemma {:induction false} SameTestSameCoins(p: Script -> bool, q: Script -> bool, snap: seq<Coin>)
    requires forall s :: p(s) == q(s)
    ensures Filter(p, snap) == Filter(q, snap)
  {
    if snap != [] {
      SameTestSameCoins(p, q, snap[1..]);
    }
  }

  /** The coins a payment may spend are exactly those the balance counts. */
  lemma GatheredIsBalance(decode: Decoder, derive: u32 -> string, keys: map<string, seq<byte>>,
                          snap: seq<Coin>, m: UtxoMap)
    requires Coherent(decode, derive, keys) && Lists(snap, m)
    ensures Filter(ByIndex(decode, derive, |keys|), snap) == Filter(ByKey(keys), snap)
    ensures SumCreated(Filter(ByIndex(decode, derive, |keys|), snap)) == Total(Restrict(ByKey(keys), m))
  {
    forall s: Script
      ensures ByIndex(decode, derive, |keys|)(s) == ByKey(keys)(s)
    {
      if IsP2pkh(s) {
        TestsAgree(decode, derive, keys, ScriptHash(s));
      }
    }
    SameTestSameCoins(ByIndex(decode, derive, |keys|), ByKey(keys), snap);
    FilterTotal(ByKey(keys), snap, m);
  }

  // ---------- signing ----------

  /** What the key library does with a private key and a digest: a signature and a public key, or nothing. */
  type Signer = (seq<byte>, Hash) -> Option<(seq<byte>, seq<byte>)>

  function Unsigned(ins: seq<TxInput>): (r: seq<TxInput>)
    ensures |r| == |ins|
  {
    if ins == [] then [] else [ins[0].(signature := [], pubkey := [])] + Unsigned(ins[1..])
  }

  function Digest(H: HashFn, tx: Transaction): Hash { H(TxBytes(tx.(inputs := Unsigned(tx.inputs)))) }

  /** First index from i on whose address decodes to the hash. */
  function FindIndex(decode: Decoder, derive: u32 -> string, n: nat, h: seq<byte>, i: nat): Option<u32>
    requires i <= n <= MAX_KEYS
    decreases n - i
  {
    if i == n then None
    else if |decode(derive(i))| == 20 && decode(derive(i)) == h then Some(i)
    else FindIndex(decode, derive, n, h, i + 1)
  }

  /** First index from i on with that address. */
  function FindAddress(derive: u32 -> string, n: nat, a: string, i: nat): Option<u32>
    requires i <= n <= MAX_KEYS
    decreases n - i
  {
    if i == n then None else if derive(i) == a then Some(i) else FindAddress(derive, n, a, i + 1)
  }

  lemma {:induction false} FindIndexExact(decode: Decoder, derive: u32 -> string, n: nat, h: seq<byte>, i: nat)
    requires i <= n <= MAX_KEYS
    ensures FindIndex(decode, derive, n, h, i).Some? <==>
              exists k: u32 :: i <= k < n && |decode(derive(k))| == 20
                               && decode(derive(k)) == h
    ensures FindIndex(decode, derive, n, h, i).Some? ==>
              var k := FindIndex(decode, derive, n, h, i).value;
              i <= k < n && |decode(derive(k))| == 20 && decode(derive(k)) == h
    decreases n - i
  {
    if i < n {
      FindIndexExact(decode, derive, n, h, i + 1);
    }
  }

  lemma {:induction false} FindAddressFinds(derive: u32 -> string, n: nat, k: u32, i: nat)
    requires i <= k < n <= MAX_KEYS
    ensures FindAddress(derive, n, derive(k), i).Some?
    ensures derive(FindAddress(derive, n, derive(k), i).value) == derive(k)
    decreases n - i
  {
    if derive(i) != derive(k) {
      FindAddressFinds(derive, n, k, i + 1);
    }
  }

  /** The key that signs for a coin: the hash leads to an address, the address to an index, that to a key. */
  function KeyFor(decode: Decoder, derive: u32 -> string, priv: u32 -> seq<byte>,
                  n: nat, s: Script): Option<seq<byte>>
    requires n <= MAX_KEYS
  {
    if !IsP2pkh(s) then None else
    var i := FindIndex(decode, derive, n, ScriptHash(s), 0);
    if i.None? || derive(i.value) == "" then None else
    var k := FindAddress(derive, n, derive(i.value), 0);
    if k.None? || |priv(k.value)| != 32 then None else Some(priv(k.value))
  }

  /** One input signed, if its coin exists, is ours and the key library obliges. */
  function SignedInput(decode: Decoder, derive: u32 -> string, priv: u32 -> seq<byte>, n: nat, sign: Signer,
                       m: UtxoMap, digest: Hash, i: TxInput): Option<TxInput>
    requires n <= MAX_KEYS
  {
    if i.Spends() !in m then None else
    var key := KeyFor(decode, derive, priv, n, m[i.Spends()].scriptPubkey);
    if key.None? then None else
    var sp := sign(key.value, digest);
    if sp.None? then None else Some(i.(signature := sp.value.0, pubkey := sp.value.1))
  }

  /** This index's address reads as the hash the script pays, and its private key is this one. */
  ghost predicate KeyAt(decode: Decoder, derive: u32 -> string, priv: u32 -> seq<byte>, s: Script, i: u32,
                        key: seq<byte>) {
    |s| == 25 && decode(derive(i)) == s[3..23] && key == priv(i) && |key| == 32
  }

  /** The key found is the one whose address reads as the script's hash, at one of the wallet's indices. */
  lemma KeyForExact(decode: Decoder, derive: u32 -> string, priv: u32 -> seq<byte>, n: nat, s: Script)
    requires n <= MAX_KEYS && KeyFor(decode, derive, priv, n, s).Some?
    ensures exists i: u32 :: i < n && KeyAt(decode, derive, priv, s, i, KeyFor(decode, derive, priv, n, s).value)
  {
    var h := ScriptHash(s);
    FindIndexExact(decode, derive, n, h, 0);
    var a := derive(FindIndex(decode, derive, n, h, 0).value);
    AddressFound(derive, n, a, 0);
    var k := FindAddress(derive, n, a, 0).value;
    assert KeyAt(decode, derive, priv, s, k, priv(k));
  }

  /**
   A key is found for every coin the wallet recognises and for no other, and it is the private key at an
   index whose address reads as the hash the coin pays.
   */
  lemma KeyFound(decode: Decoder, derive: u32 -> string, priv: u32 -> seq<byte>, n: nat, s: Script)
    requires n <= MAX_KEYS && (forall i: u32 :: i < n ==> derive(i) != "" && |priv(i)| == 32)
    ensures ByIndex(decode, derive, n)(s) <==> KeyFor(decode, derive, priv, n, s).Some?
    ensures ByIndex(decode, derive, n)(s) ==>
              exists i: u32 :: i < n && KeyAt(decode, derive, priv, s, i, KeyFor(decode, derive, priv, n, s).value)
  {
    if IsP2pkh(s) {
      var h := ScriptHash(s);
      FindIndexExact(decode, derive, n, h, 0);
      assert HeldByIndex(decode, derive, n, h) <==> FindIndex(decode, derive, n, h, 0).Some?;
      if FindIndex(decode, derive, n, h, 0).Some? {
        FindAddressFinds(derive, n, FindIndex(decode, derive, n, h, 0).value, 0);
        AddressFound(derive, n, derive(FindIndex(decode, derive, n, h, 0).value), 0);
        KeyForExact(decode, derive, priv, n, s);
      }
    }
  }

  lemma {:induction false} AddressFound(derive: u32 -> string, n: nat, a: string, i: nat)
    requires i <= n <= MAX_KEYS
    ensures FindAddress(derive, n, a, i).Some? ==>
              FindAddress(derive, n, a, i).value < n && derive(FindAddress(derive, n, a, i).value) == a
    decreases n - i
  {
    if i < n {
      AddressFound(derive, n, a, i + 1);
    }
  }

  /** Signing one input, as a function of the input alone. */
  function InputSigner(decode: Decoder, derive: u32 -> string, priv: u32 -> seq<byte>, n: nat, sign: Signer,
                       m: UtxoMap, digest: Hash): TxInput -> Option<TxInput>
    requires n <= MAX_KEYS
  {
    (i: TxInput) => SignedInput(decode, derive, priv, n, sign, m, digest, i)
  }

  /** The first i inputs are signed, the others are as they were. */
  ghost predicate SignedPrefix(signOne: TxInput -> Option<TxInput>, before: seq<TxInput>, after: seq<TxInput>, i: nat) {
    && i <= |before| == |after|
    && (forall k :: 0 <= k < i ==> signOne(before[k]) == Some(after[k]))
    && (forall k :: i <= k < |before| ==> after[k] == before[k])
  }

  /** Signing stopped at some input that cannot be signed. */
  ghost predicate StoppedSigning(signOne: TxInput -> Option<TxInput>, before: seq<TxInput>, after: seq<TxInput>) {
    exists i: nat :: SignedPrefix(signOne, before, after, i) && i < |before| && signOne(before[i]) == None
  }

  lemma SignNext(signOne: TxInput -> Option<TxInput>, before: seq<TxInput>, after: seq<TxInput>, i: nat, one: TxInput)
    requires SignedPrefix(signOne, before, after, i) && i < |before| && signOne(before[i]) == Some(one)
    ensures SignedPrefix(signOne, before, after[i := one], i + 1)
  {
  }

  lemma SignedSpends(signOne: TxInput -> Option<TxInput>, before: seq<TxInput>, after: seq<TxInput>, i: nat)
    requires SignedPrefix(signOne, before, after, i)
    requires forall x: TxInput :: signOne(x).Some? ==> signOne(x).value.Spends() == x.Spends()
    ensures Spends(after) == Spends(before)
  {
  }

  /**
   What the signed input is: the coin it spends is in the set, and signature and public key are what the key
   library gives for the digest and the key at an index whose address reads as the hash that coin pays.
   */
  ghost predicate SignedBy(decode: Decoder, derive: u32 -> string, priv: u32 -> seq<byte>, n: nat, sign: Signer,
                           m: UtxoMap, digest: Hash, before: TxInput, after: TxInput) {
    var op := OutPoint(before.prevTxHash, before.outputIndex);
    && op in m && after.prevTxHash == before.prevTxHash && after.outputIndex == before.outputIndex
    && exists i: u32, key ::
         && i < n && KeyAt(decode, derive, priv, m[op].scriptPubkey, i, key)
         && sign(key, digest) == Some((after.signature, after.pubkey))
  }

  lemma SignedInputExact(decode: Decoder, derive: u32 -> string, priv: u32 -> seq<byte>, n: nat, sign: Signer,
                         m: UtxoMap, digest: Hash, i: TxInput)
    requires n <= MAX_KEYS && SignedInput(decode, derive, priv, n, sign, m, digest, i).Some?
    ensures SignedBy(decode, derive, priv, n, sign, m, digest, i,
                     SignedInput(decode, derive, priv, n, sign, m, digest, i).value)
  {
    var s := m[i.Spends()].scriptPubkey;
    KeyForExact(decode, derive, priv, n, s);
    var key := KeyFor(decode, derive, priv, n, s).value;
    var k: u32 :| k < n && KeyAt(decode, derive, priv, s, k, key);
    assert sign(key, digest).Some?;
  }

  // ---------- the digest ----------

  lemma {:induction false} UnsignedBySpends(a: seq<TxInput>, b: seq<TxInput>)
    ensures Unsigned(a) == Unsigned(b) <==> Spends(a) == Spends(b)
    ensures Spends(Unsigned(a)) == Spends(a)
  {
    if a != [] && b != [] {
      UnsignedBySpends(a[1..], b[1..]);
      assert Unsigned(a)[0] == a[0].(signature := [], pubkey := []) && Unsigned(a)[1..] == Unsigned(a[1..]);
      assert Unsigned(b)[0] == b[0].(signature := [], pubkey := []) && Unsigned(b)[1..] == Unsigned(b[1..]);
      assert Spends(a)[0] == a[0].Spends() && Spends(a)[1..] == Spends(a[1..]);
      assert Spends(b)[0] == b[0].Spends() && Spends(b)[1..] == Spends(b[1..]);
      if Unsigned(a) == Unsigned(b) {
        assert a[0].Spends() == b[0].Spends();
        assert Spends(a) == [a[0].Spends()] + Spends(a[1..]) && Spends(b) == [b[0].Spends()] + Spends(b[1..]);
      }
      if Spends(a) == Spends(b) {
        assert Unsigned(a) == [Unsigned(a)[0]] + Unsigned(a[1..]) && Unsigned(b) == [Unsigned(b)[0]] + Unsigned(b[1..]);
      }
    } else {
      assert |Unsigned(a)| == |a| == |Spends(a)| && |Unsigned(b)| == |b| == |Spends(b)|;
    }
    if a != [] {
      UnsignedSpends(a);
    }
  }

  lemma UnsignedSpends(a: seq<TxInput>)
    ensures Spends(Unsigned(a)) == Spends(a)
  {
    UnsignedAt(a);
  }

  lemma {:induction false} UnsignedAt(a: seq<TxInput>)
    ensures forall i :: 0 <= i < |a| ==> Unsigned(a)[i] == a[i].(signature := [], pubkey := [])
  {
    if a != [] {
      UnsignedAt(a[1..]);
    }
  }

  /** It does not cover signatures and keys. */
  lemma SignedBytesByCore(a: Transaction, b: Transaction)
    requires CoreOf(a) == CoreOf(b)
    ensures SignedBytes(a) == SignedBytes(b)
  {
    UnsignedBySpends(a.inputs, b.inputs);
    assert a.(inputs := Unsigned(a.inputs)) == b.(inputs := Unsigned(b.inputs));
  }

  /** What is hashed for signing. */
  function SignedBytes(tx: Transaction): seq<byte> { TxBytes(tx.(inputs := Unsigned(tx.inputs))) }

  lemma UnsignedFits(tx: Transaction)
    requires |tx.inputs| < COUNT_LIMIT && |tx.outputs| < COUNT_LIMIT
    requires forall o :: o in tx.outputs ==> FitsOutput(o)
    ensures FitsTx(tx.(inputs := Unsigned(tx.inputs)))
  {
    UnsignedAt(tx.inputs);
  }

  /**
   All signatures of a transaction are over one digest, which covers exactly the payment: two transactions
   within the parser's limits hash the same bytes for signing exactly when they agree but for signatures
   and keys.
   */
  lemma SignedBytesExact(a: Transaction, b: Transaction)
    requires |a.inputs| < COUNT_LIMIT && |a.outputs| < COUNT_LIMIT && forall o :: o in a.outputs ==> FitsOutput(o)
    requires |b.inputs| < COUNT_LIMIT && |b.outputs| < COUNT_LIMIT && forall o :: o in b.outputs ==> FitsOutput(o)
    ensures SignedBytes(a) == SignedBytes(b) <==> CoreOf(a) == CoreOf(b)
  {
    var a', b' := a.(inputs := Unsigned(a.inputs)), b.(inputs := Unsigned(b.inputs));
    UnsignedBySpends(a.inputs, b.inputs);
    if SignedBytes(a) == SignedBytes(b) {
      UnsignedFits(a);
      UnsignedFits(b);
      TxRoundTrip(a', []);
      TxRoundTrip(b', []);
      assert a' == b';
    }
  }
}
