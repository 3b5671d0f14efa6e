/** The wallet with the program's own address reader: which coins it recognises after all. */
module WalletAddresses {
  import opened Bytes
  import opened Types
  import opened Chain
  import opened Base58Laws
  import opened WalletSpec
  import opened Utxo
  import opened Coins
  import opened WalletObjects

  /** The program's address reader for one hash function. */
  function Reader(H: HashFn): Decoder { (a: string) => AddressToPubKeyHash(H, a) }

  /** The addresses derived for a list of key hashes. */
  function Addresses(H: HashFn, hashes: u32 -> seq<byte>): u32 -> string {
    (i: u32) => PubKeyHashToAddress(H, hashes(i))
  }

  /** The scripts that pay a key hash, byte by byte, and no others are recognised as such. */
  lemma P2pkhExactly(s: Script)
    ensures IsP2pkh(s) <==> exists h: seq<byte> :: |h| == 20 && s == PayTo(h)
    ensures IsP2pkh(s) ==> s == [0x76, 0xa9, 0x14] + ScriptHash(s) + [0x88, 0xac]
    ensures forall h: seq<byte> :: |h| != 20 ==> PayTo(h) == PayTo(Zeros(20))
  {
    if IsP2pkh(s) {
      assert s == [0x76, 0xa9, 0x14] + s[3..23] + [0x88, 0xac];
      assert s == PayTo(s[3..23]);
    }
  }

  /** Paying a key hash and reading the payment's script give each other back. */
  lemma PaidScriptRead(h: seq<byte>)
    requires |h| == 20
    ensures IsP2pkh(PayTo(h)) && ScriptHash(PayTo(h)) == h
  {
    var s := PayTo(h);
    assert s[3..23] == h;
  }

  /** One of the first n addresses reads as this key hash: its 25 address bytes are the hash's in reverse. */
  ghost predicate ReadByOne(H: HashFn, hashes: u32 -> seq<byte>, n: nat, h: seq<byte>) {
    exists i: u32 :: i < n && Checked(H, h, ADDRESS_VERSION) == Reverse(Checked(H, hashes(i), ADDRESS_VERSION))
  }

  /**
   A wallet recognises a coin paid to a key hash, its own or not, exactly when the hash's 25 address bytes
   are those of one of its own hashes in reverse.
   */
  lemma OwnCoinRecognised(H: HashFn, hashes: u32 -> seq<byte>, n: nat, h: seq<byte>)
    requires |h| == 20 && forall i: u32 :: i < n ==> |hashes(i)| == 20
    ensures ByIndex(Reader(H), Addresses(H, hashes), n)(PayTo(h)) <==> ReadByOne(H, hashes, n, h)
  {
    var decode, derive := Reader(H), Addresses(H, hashes);
    PaidScriptRead(h);
    if HeldByIndex(decode, derive, n, h) {
      var i: u32 :| i < n && |decode(derive(i))| == 20 && decode(derive(i)) == h;
      AddressReadsAsExactly(H, hashes(i), h);
    }
    if ReadByOne(H, hashes, n, h) {
      var i: u32 :| i < n && Checked(H, h, ADDRESS_VERSION) == Reverse(Checked(H, hashes(i), ADDRESS_VERSION));
      AddressReadsAsExactly(H, hashes(i), h);
      assert decode(derive(i)) == h;
    }
  }

  /** So its own coin is recognised if the hash's address bytes are a palindrome; with one key, only then. */
  lemma PalindromeRecognised(H: HashFn, hashes: u32 -> seq<byte>, n: nat, k: u32)
    requires k < n && forall i: u32 :: i < n ==> |hashes(i)| == 20
    ensures var buf := Checked(H, hashes(k), ADDRESS_VERSION);
            var mine := ByIndex(Reader(H), Addresses(H, hashes), n)(PayTo(hashes(k)));
            (buf == Reverse(buf) ==> mine) && (n == 1 ==> (mine <==> buf == Reverse(buf)))
  {
    OwnCoinRecognised(H, hashes, n, hashes(k));
    PalindromeRead(H, hashes, n, k);
  }

  lemma PalindromeRead(H: HashFn, hashes: u32 -> seq<byte>, n: nat, k: u32)
    requires k < n
    ensures var buf := Checked(H, hashes(k), ADDRESS_VERSION);
            && (buf == Reverse(buf) ==> ReadByOne(H, hashes, n, hashes(k)))
            && (n == 1 ==> (ReadByOne(H, hashes, n, hashes(k)) <==> buf == Reverse(buf)))
  {
  }

  // ---------- where payments go ----------

  /** The script a payment to an address of the program's own making gets. */
  function ScriptFor(H: HashFn, g: seq<byte>): Script { PayTo(Reader(H)(PubKeyHashToAddress(H, g))) }

  lemma PayToInjective(g: seq<byte>, h: seq<byte>)
    requires |g| == 20 && |h| == 20 && PayTo(g) == PayTo(h)
    ensures g == h
  {
    PaidScriptRead(g);
    PaidScriptRead(h);
  }

  /**
   Paying the address of one key hash pays the hash whose 25 address bytes are that hash's in reverse, if
   there is one, and otherwise the zero hash.
   */
  lemma AddressPays(H: HashFn, g: seq<byte>, h: seq<byte>)
    requires |g| == 20 && |h| == 20
    ensures ScriptFor(H, g) == PayTo(h)
       <==> Checked(H, h, ADDRESS_VERSION) == Reverse(Checked(H, g, ADDRESS_VERSION))
            || (h == Zeros(20) && !AddressReads(H, g))
  {
    var r := AddressToPubKeyHash(H, PubKeyHashToAddress(H, g));
    AddressReadsAsExactly(H, g, h);
    if |r| == 20 {
      AddressReadsAsExactly(H, g, r);
      if PayTo(r) == PayTo(h) {
        PayToInjective(r, h);
      }
    } else {
      AddressUnread(H, g);
      if PayTo(Zeros(20)) == PayTo(h) {
        PayToInjective(Zeros(20), h);
      }
    }
  }

  /** Some key hash has the address bytes of this one in reverse. */
  ghost predicate AddressReads(H: HashFn, g: seq<byte>) {
    exists h: seq<byte> :: |h| == 20 && Checked(H, h, ADDRESS_VERSION) == Reverse(Checked(H, g, ADDRESS_VERSION))
  }

  lemma AddressUnread(H: HashFn, g: seq<byte>)
    requires |g| == 20 && |AddressToPubKeyHash(H, PubKeyHashToAddress(H, g))| != 20
    ensures !AddressReads(H, g)
  {
    if h: seq<byte> :| |h| == 20 && Checked(H, h, ADDRESS_VERSION) == Reverse(Checked(H, g, ADDRESS_VERSION)) {
      AddressReadsAsExactly(H, g, h);
    }
  }

  /**
   So a payment reaches the key hash its destination address was made from, and its change the next key
   hash of the wallet, exactly when their address bytes are palindromes (or when they are the zero hash,
   unread, by accident).
   */
  lemma PaymentReaches(H: HashFn, hashes: u32 -> seq<byte>, n: nat, g: seq<byte>,
                       tx: Transaction, chosen: seq<Coin>, m: UtxoMap, amount: u64, fee: u64)
    requires |g| == 20 && |hashes(n % MAX_KEYS)| == 20
    requires Pays(tx, chosen, m, RecipientsOf(Reader(H), Addresses(H, hashes), n, PubKeyHashToAddress(H, g)),
                  amount, fee)
    ensures tx.outputs[0].scriptPubkey == PayTo(g) <==> ReachesOwner(H, g)
    ensures |tx.outputs| == 2 ==>
              (tx.outputs[1].scriptPubkey == PayTo(hashes(n % MAX_KEYS)) <==> ReachesOwner(H, hashes(n % MAX_KEYS)))
  {
    AddressPays(H, g, g);
    AddressPays(H, hashes(n % MAX_KEYS), hashes(n % MAX_KEYS));
    assert tx.outputs[0].scriptPubkey == ScriptFor(H, g);
    assert |tx.outputs| == 2 ==> tx.outputs[1].scriptPubkey == ScriptFor(H, hashes(n % MAX_KEYS));
  }

  /** A payment to the address of this key hash pays this key hash. */
  ghost predicate ReachesOwner(H: HashFn, g: seq<byte>) {
    || Checked(H, g, ADDRESS_VERSION) == Reverse(Checked(H, g, ADDRESS_VERSION))
    || (g == Zeros(20) && !AddressReads(H, g))
  }
}
