/** What decoding gives back, and what that means for addresses. */
module Base58Laws {
  import opened Bytes
  import opened Types
  import opened Base58

  // ---------- symbols ----------

  /** Character codes of the alphabet: digits, capitals and small letters without 0, I, O and l. */
  function Code(d: nat): nat {
    if d < 9 then 49 + d else if d < 17 then 56 + d else if d < 22 then 57 + d
    else if d < 33 then 58 + d else if d < 44 then 64 + d else 65 + d
  }

  lemma SymbolCode(d: nat)
    requires d < 58
    ensures ALPHABET[d] as int == Code(d)
  {
    if d < 22 {
      LowSymbolCode(d);
    } else {
      HighSymbolCode(d);
    }
  }

  lemma LowSymbolCode(d: nat)
    requires d < 22
    ensures ALPHABET[d] as int == Code(d)
  {
    if d < 9 {
      assert ALPHABET[d] == "123456789"[d];
    } else if d < 17 {
      assert ALPHABET[d] == "ABCDEFGH"[d - 9];
    } else {
      assert ALPHABET[d] == "JKLMN"[d - 17];
    }
  }

  lemma HighSymbolCode(d: nat)
    requires 22 <= d < 58
    ensures ALPHABET[d] as int == Code(d)
  {
    if d < 33 {
      assert ALPHABET[d] == "PQRSTUVWXYZ"[d - 22];
    } else if d < 44 {
      assert ALPHABET[d] == "abcdefghijk"[d - 33];
    } else {
      assert ALPHABET[d] == "mnopqrstuvwxyz"[d - 44];
    }
  }

  lemma AlphabetAscends(i: nat, j: nat)
    requires i < j < 58
    ensures ALPHABET[i] < ALPHABET[j]
  {
    SymbolCode(i);
    SymbolCode(j);
  }

  lemma {:induction false} FindFrom(d: nat, from: nat)
    requires from <= d < 58
    ensures Find(Symbol(d), from) == Some(d)
    decreases d - from
  {
    if from < d {
      AlphabetAscends(from, d);
      FindFrom(d, from + 1);
    }
  }

  // ---------- the round trip ----------

  lemma LastSymbol(z: nat, ds: seq<nat>)
    requires ds != [] && InRange(58, ds)
    ensures var s := Ones(z) + Spell(ds);
            s[..|s| - 1] == Ones(z) + Spell(ds[1..]) && s[|s| - 1] == Symbol(ds[0])
  {
  }

  lemma {:induction false} OnesReadAsNothing(z: nat)
    ensures BytesOf(Ones(z)) == Some([])
  {
    if z == 0 {
      assert Ones(0) == "";
    } else {
      OnesAppend(z - 1);
      assert Ones(z)[..z - 1] == Ones(z - 1);
      OnesReadAsNothing(z - 1);
      FindFrom(0, 0);
    }
  }

  /** Reading spelled digits rebuilds their number in the other base. */
  lemma {:induction false} SpelledReadsBack(z: nat, ds: seq<nat>)
    requires InRange(58, ds)
    ensures var r := BytesOf(Ones(z) + Spell(ds));
            r.Some? && Value(256, r.value) == Value(58, ds)
    decreases |ds|
  {
    if ds == [] {
      OnesReadAsNothing(z);
      assert Ones(z) + Spell(ds) == Ones(z);
    } else {
      LastSymbol(z, ds);
      SpelledReadsBack(z, ds[1..]);
      FindFrom(ds[0], 0);
      MulAddValue(256, 58, BytesOf(Ones(z) + Spell(ds[1..])).value, ds[0]);
    }
  }

  lemma LeadingZerosWeighNothing(data: seq<byte>)
    ensures FromBE(data) == FromLE(Reverse(data[LeadingZeros(data)..]))
  {
    var z := LeadingZeros(data);
    var tail := data[z..];
    FromBEIsReversedLE(data);
    ZerosInFront(data);
    ReverseAfterZeros(z, tail);
    HighZeros(Reverse(tail), z);
  }

  lemma {:induction false} HighZeros(bs: seq<byte>, z: nat)
    ensures FromLE(bs + Zeros(z)) == FromLE(bs)
  {
    if bs == [] {
      assert bs + Zeros(z) == Zeros(z);
      ZerosAreZero(z);
    } else {
      assert (bs + Zeros(z))[1..] == bs[1..] + Zeros(z);
      HighZeros(bs[1..], z);
    }
  }

  lemma ReverseAfterZeros(z: nat, tail: seq<byte>)
    ensures Reverse(Zeros(z) + tail) == Reverse(tail) + Zeros(z)
  {
  }

  lemma {:induction false} ZerosAreZero(n: nat)
    ensures FromLE(Zeros(n)) == 0
  {
    if n > 0 {
      ZerosAreZero(n - 1);
      assert Zeros(n)[1..] == Zeros(n - 1);
    }
  }

  lemma {:induction false} LeadingOnesCounted(z: nat, s: string)
    requires s != "" ==> s[0] != '1'
    ensures LeadingOnes(Ones(z) + s) == z
  {
    if z > 0 {
      assert (Ones(z) + s)[1..] == Ones(z - 1) + s;
      LeadingOnesCounted(z - 1, s);
    } else {
      assert Ones(0) + s == s;
    }
  }

  lemma EncodingStartsWithItsOnes(data: seq<byte>)
    ensures LeadingOnes(Encode(data)) == LeadingZeros(data)
  {
    var ds := Digits(data);
    DigitsExact(data);
    if ds != [] {
      SpellLast(ds);
      AlphabetAscends(0, ds[|ds| - 1]);
      SymbolCode(0);
    }
    LeadingOnesCounted(LeadingZeros(data), Spell(ds));
  }

  lemma NumberReadsBack(data: seq<byte>)
    ensures BytesOf(Encode(data)) == Some(Reverse(data[LeadingZeros(data)..]))
  {
    var z := LeadingZeros(data);
    var back := Reverse(data[z..]);
    DigitsExact(data);
    SpelledReadsBack(z, Digits(data));
    LeadingZerosWeighNothing(data);
    CanonicalUnique(256, BytesOf(Encode(data)).value, back);
  }

  /** Decoding an encoding keeps the leading zeros and gives the remaining bytes in reverse order. */
  lemma DecodeEncode(data: seq<byte>)
    ensures Decode(Encode(data)) == Zeros(LeadingZeros(data)) + Reverse(data[LeadingZeros(data)..])
  {
    NumberReadsBack(data);
    EncodingStartsWithItsOnes(data);
    var back := Reverse(data[LeadingZeros(data)..]);
    assert AsBytes(back) == back;
  }

  /** No two inputs share an encoding. */
  lemma EncodeInjective(a: seq<byte>, b: seq<byte>)
    requires Encode(a) == Encode(b)
    ensures a == b
  {
    var z := LeadingZeros(a);
    EncodingStartsWithItsOnes(a);
    EncodingStartsWithItsOnes(b);
    DecodeEncode(a);
    DecodeEncode(b);
    SameTail(Zeros(z), Reverse(a[z..]), Reverse(b[z..]));
    ReverseTwice(a[z..]);
    ReverseTwice(b[z..]);
    ZerosInFront(a);
    ZerosInFront(b);
  }

  lemma ZerosInFront(data: seq<byte>)
    ensures data == Zeros(LeadingZeros(data)) + data[LeadingZeros(data)..]
  {
  }

  lemma SameTail(front: seq<byte>, x: seq<byte>, y: seq<byte>)
    requires front + x == front + y
    ensures x == y
  {
    assert (front + x)[|front|..] == x && (front + y)[|front|..] == y;
  }

  /** Decoding inverts encoding exactly on inputs that are palindromes after their leading zeros. */
  lemma DecodeInvertsExactly(data: seq<byte>)
    ensures Decode(Encode(data)) == data <==>
              data[LeadingZeros(data)..] == Reverse(data[LeadingZeros(data)..])
  {
    var z := LeadingZeros(data);
    var tail := data[z..];
    DecodeEncode(data);
    ZerosInFront(data);
    if Decode(Encode(data)) == data {
      SameTail(Zeros(z), Reverse(tail), tail);
    }
  }

  // ---------- addresses ----------

  const ADDRESS_VERSION: byte := 0x3f

  function Checked(H: HashFn, payload: seq<byte>, version: byte): seq<byte> {
    var body := [version] + payload;
    body + H(body)[..4]
  }

  function EncodeCheck(H: HashFn, payload: seq<byte>, version: byte): string {
    Encode(Checked(H, payload, version))
  }

  /** The payload, empty on any error, and the version byte when there were bytes enough to hold one. */
  function DecodeCheck(H: HashFn, address: string): (seq<byte>, Option<byte>) {
    var decoded := Decode(address);
    var n := |decoded|;
    if n < 5 then ([], None) else
    (if H(decoded[..n - 4])[..4] != decoded[n - 4..] then [] else decoded[1..n - 4], Some(decoded[0]))
  }

  function PubKeyHashToAddress(H: HashFn, hash160: seq<byte>): string {
    EncodeCheck(H, hash160, ADDRESS_VERSION)
  }

  function AddressToPubKeyHash(H: HashFn, address: string): (h: seq<byte>)
    ensures |h| == 0 || |h| == 20
  {
    var (payload, version) := DecodeCheck(H, address);
    if |payload| != 20 || version != Some(ADDRESS_VERSION) then [] else payload
  }

  lemma DecodedAddress(H: HashFn, h: seq<byte>)
    requires |h| == 20
    ensures Decode(PubKeyHashToAddress(H, h)) == Reverse(Checked(H, h, ADDRESS_VERSION))
  {
    var buf := Checked(H, h, ADDRESS_VERSION);
    DecodeEncode(buf);
    assert buf[0] == ADDRESS_VERSION;
    assert LeadingZeros(buf) == 0;
    assert buf[0..] == buf;
    assert Zeros(0) + Reverse(buf) == Reverse(buf);
  }

  /**
   The address of one key hash reads back as another exactly when the 25 bytes encoded for the one
   (version, hash, four checksum bytes) are those of the other in reverse.
   */
  lemma AddressReadsAsExactly(H: HashFn, g: seq<byte>, h: seq<byte>)
    requires |g| == 20 && |h| == 20
    ensures AddressToPubKeyHash(H, PubKeyHashToAddress(H, g)) == h
       <==> Checked(H, h, ADDRESS_VERSION) == Reverse(Checked(H, g, ADDRESS_VERSION))
  {
    var d := Reverse(Checked(H, g, ADDRESS_VERSION));
    DecodedAddress(H, g);
    ReadBytesExactly(H, d, h);
  }

  /** What the reader makes of 25 decoded bytes. */
  lemma ReadBytesExactly(H: HashFn, d: seq<byte>, h: seq<byte>)
    requires |d| == 25 && |h| == 20
    ensures H(d[..21])[..4] == d[21..] && d[1..21] == h && d[0] == ADDRESS_VERSION
       <==> Checked(H, h, ADDRESS_VERSION) == d
  {
    var body := [ADDRESS_VERSION] + h;
    assert Checked(H, h, ADDRESS_VERSION)[..21] == body && body[1..] == h;
    assert Checked(H, h, ADDRESS_VERSION)[21..] == H(body)[..4];
    assert d == d[..21] + d[21..] && d[..21] == [d[0]] + d[1..21];
  }

  /**
   So a key hash survives being written as an address and read back exactly when its 25 address bytes
   are a palindrome; the checksum's last byte then equals the version byte.
   */
  lemma AddressRoundTripExactly(H: HashFn, h: seq<byte>)
    requires |h| == 20
    ensures var buf := Checked(H, h, ADDRESS_VERSION);
            AddressToPubKeyHash(H, PubKeyHashToAddress(H, h)) == h <==> buf == Reverse(buf)
  {
    AddressReadsAsExactly(H, h, h);
  }
}
