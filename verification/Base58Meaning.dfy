/** What any string decodes to and any bytes encode to, told from the places of the symbols. */
module Base58Meaning {
  import opened Bytes
  import opened Types
  import opened Base58
  import opened Base58Laws

  // ---------- the alphabet ----------

  /** Digits but zero, capitals but I and O, small letters but l. */
  predicate Wanted(c: char) {
    || '1' <= c <= '9' || ('A' <= c <= 'Z' && c != 'I' && c != 'O') || ('a' <= c <= 'z' && c != 'l')
  }

  function PlaceOf(c: char): (d: nat)
    requires Wanted(c)
    ensures d < 58 && Code(d) == c as int
  {
    if c <= '9' then c as int - 49 else if c <= 'H' then c as int - 56 else if c <= 'N' then c as int - 57
    else if c <= 'Z' then c as int - 58 else if c <= 'k' then c as int - 64 else c as int - 65
  }

  /** The alphabet has exactly those symbols, in ascending order. */
  lemma AlphabetExact()
    ensures |ALPHABET| == 58
    ensures forall i, j :: 0 <= i < j < 58 ==> ALPHABET[i] < ALPHABET[j]
    ensures forall c: char :: c in ALPHABET <==> Wanted(c)
  {
    forall i, j | 0 <= i < j < 58
      ensures ALPHABET[i] < ALPHABET[j]
    {
      AlphabetAscends(i, j);
    }
    forall c: char
      ensures c in ALPHABET <==> Wanted(c)
    {
      SymbolsWanted(c);
    }
  }

  lemma SymbolsWanted(c: char)
    ensures c in ALPHABET <==> Wanted(c)
  {
    if Wanted(c) {
      SymbolCode(PlaceOf(c));
      assert ALPHABET[PlaceOf(c)] == c;
    }
    if c in ALPHABET {
      var d :| 0 <= d < 58 && ALPHABET[d] == c;
      SymbolCode(d);
    }
  }

  /** The digit a symbol stands for; the NUL that ends the program's alphabet counts as its 59th symbol. */
  ghost predicate StandsFor(c: char, d: nat) { (d < 58 && ALPHABET[d] == c) || (d == 58 && c == '\0') }

  ghost predicate Foreign(c: char) { c !in ALPHABET && c != '\0' }

  lemma {:induction false} FindMisses(c: char, from: nat)
    requires from <= 58 && Foreign(c)
    ensures Find(c, from) == None
    decreases 58 - from
  {
    if from < 58 {
      FindMisses(c, from + 1);
    }
  }

  lemma {:induction false} FindNul(from: nat)
    requires from <= 58
    ensures Find('\0', from) == Some(58)
    decreases 58 - from
  {
    if from < 58 {
      SymbolCode(from);
      FindNul(from + 1);
    }
  }

  lemma FindStandsFor(c: char, d: nat)
    requires StandsFor(c, d)
    ensures Find(c, 0) == Some(d)
  {
    if d < 58 {
      FindFrom(d, 0);
    } else {
      FindNul(0);
    }
  }

  // ---------- decoding ----------

  /** One foreign symbol anywhere makes the whole string decode to nothing, and read as no address. */
  lemma ForeignDecodesToNothing(H: HashFn, s: string, i: nat)
    requires i < |s| && Foreign(s[i])
    ensures Decode(s) == [] && AddressToPubKeyHash(H, s) == []
  {
    FindMisses(s[i], 0);
    assert s[..i + 1][..i] == s[..i] && s[..i + 1][i] == s[i];
    assert BytesOf(s[..i + 1]).None?;
    ForeignStays(s, i + 1);
  }

  /** The number of a digit list with the highest digit first. */
  function BigValue(base: nat, ds: seq<nat>): nat {
    if ds == [] then 0 else base * BigValue(base, ds[..|ds| - 1]) + ds[|ds| - 1]
  }

  ghost predicate Spells(s: string, ds: seq<nat>) {
    |ds| == |s| && forall i :: 0 <= i < |s| ==> StandsFor(s[i], ds[i])
  }

  lemma {:induction false} BytesDenote(s: string, ds: seq<nat>)
    requires Spells(s, ds)
    ensures BytesOf(s).Some? && Value(256, BytesOf(s).value) == BigValue(58, ds)
  {
    if s != "" {
      var n := |s| - 1;
      BytesDenote(s[..n], ds[..n]);
      FindStandsFor(s[n], ds[n]);
      MulAddValue(256, 58, BytesOf(s[..n]).value, ds[n]);
    }
  }

  lemma {:induction false} OnesCounted(s: string)
    ensures var z := LeadingOnes(s);
            (forall i :: 0 <= i < z ==> s[i] == '1') && (z < |s| ==> s[z] != '1')
  {
    if s != "" && s[0] == '1' {
      OnesCounted(s[1..]);
    }
  }

  /**
   Every string of symbols (NUL among them) decodes to one zero byte for each leading '1' followed by the
   bytes of the number its places spell with base 58, highest symbol first, but lowest byte first and
   without a zero at the high end.
   */
  lemma DecodeDenotes(s: string, ds: seq<nat>) returns (z: nat, bs: seq<byte>)
    requires Spells(s, ds)
    ensures Decode(s) == Zeros(z) + bs && FromLE(bs) == BigValue(58, ds)
    ensures bs != [] ==> bs[|bs| - 1] != 0
    ensures z <= |s| && (forall i :: 0 <= i < z ==> s[i] == '1') && (z < |s| ==> s[z] != '1')
  {
    BytesDenote(s, ds);
    OnesCounted(s);
    z, bs := LeadingOnes(s), AsBytes(BytesOf(s).value);
    assert bs == BytesOf(s).value;
  }

  // ---------- encoding ----------

  lemma {:induction false} BigValueReversed(base: nat, ds: seq<nat>)
    ensures BigValue(base, Reverse(ds)) == Value(base, ds)
  {
    if ds != [] {
      BigValueReversed(base, ds[1..]);
      assert Reverse(ds)[..|ds| - 1] == Reverse(ds[1..]);
    }
  }

  lemma {:induction false} SpelledSymbols(ds: seq<nat>)
    requires InRange(58, ds)
    ensures forall i :: 0 <= i < |ds| ==> Spell(ds)[i] == ALPHABET[Reverse(ds)[i]]
  {
    if ds != [] {
      SpelledSymbols(ds[1..]);
      forall i | 0 <= i < |ds|
        ensures Spell(ds)[i] == ALPHABET[Reverse(ds)[i]]
      {
        if i < |ds| - 1 {
          assert Spell(ds)[i] == Spell(ds[1..])[i] && Reverse(ds)[i] == Reverse(ds[1..])[i];
        }
      }
    }
  }

  /**
   Any bytes encode as one '1' for each leading zero byte followed by the symbols of the number they
   denote, highest byte first, with base 58, highest digit first and not zero.
   */
  lemma EncodeDenotes(data: seq<byte>) returns (z: nat, ds: seq<nat>)
    ensures |Encode(data)| == z + |ds|
    ensures forall i :: 0 <= i < z ==> Encode(data)[i] == '1'
    ensures forall i :: 0 <= i < |ds| ==> ds[i] < 58 && Encode(data)[z + i] == ALPHABET[ds[i]]
    ensures BigValue(58, ds) == FromBE(data) && (ds != [] ==> ds[0] != 0)
    ensures z <= |data| && (forall i :: 0 <= i < z ==> data[i] == 0) && (z < |data| ==> data[z] != 0)
  {
    var digits := Digits(data);
    DigitsExact(data);
    BigValueReversed(58, digits);
    SpelledSymbols(digits);
    z, ds := LeadingZeros(data), Reverse(digits);
  }

  // ---------- addresses ----------

  /** Version 63, key hash, and the first four bytes of the hash of both. */
  function AddressBytes(H: HashFn, h: seq<byte>): seq<byte> { [63] + h + H([63] + h)[..4] }

  lemma AddressBytesAre(H: HashFn, h: seq<byte>)
    requires |h| == 20
    ensures Checked(H, h, ADDRESS_VERSION) == AddressBytes(H, h)
    ensures PubKeyHashToAddress(H, h) == Encode(AddressBytes(H, h))
  {
  }

  /** A string reads as a key hash exactly when it decodes to that hash's 25 address bytes. */
  lemma AddressReadExactly(H: HashFn, s: string, h: seq<byte>)
    requires |h| == 20
    ensures AddressToPubKeyHash(H, s) == h <==> Decode(s) == AddressBytes(H, h)
  {
    AddressBytesAre(H, h);
    var d := Decode(s);
    if |d| == 25 {
      ReadBytesExactly(H, d, h);
    }
    assert |AddressBytes(H, h)| == 25;
  }
}
