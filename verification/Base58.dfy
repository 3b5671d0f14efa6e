/** Base58 as the program converts it: digit vectors rewritten in place, one input symbol at a time. */
module Base58 {
  import opened Bytes
  import opened Types

  const ALPHABET: string :=
    "123456789" + "ABCDEFGH" + "JKLMN" + "PQRSTUVWXYZ" + "abcdefghijk" + "mnopqrstuvwxyz"

  // ---------- numbers as digit lists, lowest digit first ----------

  predicate InRange(base: nat, ds: seq<nat>) { forall i :: 0 <= i < |ds| ==> ds[i] < base }

  /** Digits in range and no superfluous zero at the high end. */
  predicate Canonical(base: nat, ds: seq<nat>) {
    InRange(base, ds) && (ds != [] ==> ds[|ds| - 1] != 0)
  }

  lemma DivMod(base: nat, d: nat, v: nat)
    requires 0 < base && d < base
    ensures (d + base * v) % base == d && (d + base * v) / base == v
  {
    var q, r := (d + base * v) / base, (d + base * v) % base;
    assert d + base * v == base * q + r;
    assert base * (q - v) == d - r;
    Between(base, q - v);
  }

  lemma Between(base: nat, k: int)
    requires 0 - base < base * k < base
    ensures k == 0
  {
    MultipleIsFar(k, base);
  }

  lemma DivShrinks(base: nat, carry: nat)
    requires base > 1 && carry > 0
    ensures carry / base < carry
  {
    var q := carry / base;
    assert carry == base * q + carry % base;
    ProductGrows(2, base, q);
  }

  /** A number has one canonical digit list. */
  lemma {:induction false} CanonicalUnique(base: nat, a: seq<nat>, b: seq<nat>)
    requires base > 1 && Canonical(base, a) && Canonical(base, b)
    requires Value(base, a) == Value(base, b)
    ensures a == b
    decreases |a|
  {
    if a == [] {
      if b != [] {
        PositiveValue(base, b);
      }
    } else if b == [] {
      PositiveValue(base, a);
    } else {
      DivMod(base, a[0], Value(base, a[1..]));
      DivMod(base, b[0], Value(base, b[1..]));
      TailCanonical(base, a);
      TailCanonical(base, b);
      CanonicalUnique(base, a[1..], b[1..]);
      assert a == [a[0]] + a[1..] && b == [b[0]] + b[1..];
    }
  }

  lemma TailCanonical(base: nat, a: seq<nat>)
    requires Canonical(base, a) && a != []
    ensures Canonical(base, a[1..])
  {
  }

  lemma {:induction false} PositiveValue(base: nat, a: seq<nat>)
    requires base > 0 && a != [] && a[|a| - 1] != 0
    ensures Value(base, a) > 0
  {
    if |a| > 1 {
      PositiveValue(base, a[1..]);
      assert base * Value(base, a[1..]) > 0;
    }
  }

  /** The digits of a carry that runs past the end. */
  function Push(base: nat, carry: nat): seq<nat>
    requires base > 1
    decreases carry
  {
    if carry == 0 then [] else
    DivShrinks(base, carry);
    [carry % base] + Push(base, carry / base)
  }

  /** The digits of mul * ds + carry, digit by digit. */
  function MulAdd(base: nat, mul: nat, ds: seq<nat>, carry: nat): (r: seq<nat>)
    requires base > 1
    ensures ds != [] ==> r != []
    decreases |ds|
  {
    if ds == [] then Push(base, carry) else
    var c := carry + ds[0] * mul;
    [c % base] + MulAdd(base, mul, ds[1..], c / base)
  }

  lemma {:induction false} PushExact(base: nat, carry: nat)
    requires base > 1
    ensures Canonical(base, Push(base, carry)) && Value(base, Push(base, carry)) == carry
    decreases carry
  {
    if carry > 0 {
      DivShrinks(base, carry);
      PushExact(base, carry / base);
      Rebuilt(base, carry);
      PrependDigit(base, carry % base, Push(base, carry / base), carry / base);
    }
  }

  lemma Rebuilt(base: nat, c: nat)
    requires base > 0
    ensures c % base + base * (c / base) == c && c % base < base
  {
  }

  /** A digit put below the canonical digits of v, unless both are zero. */
  lemma PrependDigit(base: nat, d: nat, tail: seq<nat>, v: nat)
    requires Canonical(base, tail) && Value(base, tail) == v && d < base && d + base * v > 0
    ensures Canonical(base, [d] + tail) && Value(base, [d] + tail) == d + base * v
  {
    assert ([d] + tail)[1..] == tail;
  }

  lemma {:induction false} MulAddValue(base: nat, mul: nat, ds: seq<nat>, carry: nat)
    requires base > 1
    ensures Value(base, MulAdd(base, mul, ds, carry)) == mul * Value(base, ds) + carry
    decreases |ds|
  {
    if ds == [] {
      PushExact(base, carry);
    } else {
      var c := carry + ds[0] * mul;
      var v := Value(base, ds[1..]);
      MulAddValue(base, mul, ds[1..], c / base);
      assert MulAdd(base, mul, ds, carry)[1..] == MulAdd(base, mul, ds[1..], c / base);
      Scaled(base, mul, ds[0], v, carry);
    }
  }

  lemma Scaled(base: nat, mul: nat, d: nat, v: nat, carry: nat)
    requires base > 0
    ensures var c := carry + d * mul;
            c % base + base * (mul * v + c / base) == mul * (d + base * v) + carry
  {
    var c := carry + d * mul;
    calc {
      c % base + base * (mul * v + c / base);
      c % base + base * (c / base) + base * (mul * v);
      { assert c == base * (c / base) + c % base; }
      c + base * (mul * v);
      { assert base * (mul * v) == mul * (base * v); }
      carry + d * mul + mul * (base * v);
      mul * (d + base * v) + carry;
    }
  }

  lemma {:induction false} MulAddCanonical(base: nat, mul: nat, ds: seq<nat>, carry: nat)
    requires base > 1 && mul > 0 && Canonical(base, ds)
    ensures Canonical(base, MulAdd(base, mul, ds, carry))
    decreases |ds|
  {
    if ds == [] {
      PushExact(base, carry);
    } else {
      var c := carry + ds[0] * mul;
      var tail := MulAdd(base, mul, ds[1..], c / base);
      TailCanonical(base, ds);
      MulAddCanonical(base, mul, ds[1..], c / base);
      if tail == [] {
        assert ds[1..] == [] && c / base == 0;
        ProductGrows(1, ds[0], mul);
        Rebuilt(base, c);
      }
    }
  }

  // ---------- the vector loops ----------

  /** The encoder's pass over its digits: times 256 plus one byte. */
  method TimesByte(digits: seq<nat>, b: byte) returns (res: seq<nat>)
    requires Canonical(58, digits)
    ensures res == MulAdd(58, 256, digits, b)
  {
    res := digits;
    var carry: u32 := b;
    assert digits[0..] == digits;
    for j := 0 to |digits|
      invariant |res| == |digits| && carry <= 255
      invariant forall k :: j <= k < |digits| ==> res[k] == digits[k]
      invariant res[..j] + MulAdd(58, 256, digits[j..], carry) == MulAdd(58, 256, digits, b)
    {
      ghost var before, c := res[..j], carry;
      carry := carry + res[j] * 256;
      NextDigit(58, 256, digits, j, before, c);
      res := res[j := carry % 58];
      carry := carry / 58;
      assert res[..j + 1] == before + [res[j]];
    }
    assert res[..|digits|] == res;
    while carry > 0
      invariant res + Push(58, carry) == MulAdd(58, 256, digits, b)
    {
      assert res + ([carry % 58] + Push(58, carry / 58)) == (res + [carry % 58]) + Push(58, carry / 58);
      res := res + [carry % 58];
      carry := carry / 58;
    }
  }

  /** The decoder's pass over its bytes: times 58 plus one digit; a matched terminator counts as 58. */
  method TimesDigit(bytes: seq<nat>, d: nat) returns (res: seq<nat>)
    requires Canonical(256, bytes) && d <= 58
    ensures res == MulAdd(256, 58, bytes, d)
  {
    res := bytes;
    var carry: u32 := d;
    assert bytes[0..] == bytes;
    for j := 0 to |bytes|
      invariant |res| == |bytes| && carry <= 58
      invariant forall k :: j <= k < |bytes| ==> res[k] == bytes[k]
      invariant res[..j] + MulAdd(256, 58, bytes[j..], carry) == MulAdd(256, 58, bytes, d)
    {
      ghost var before, c := res[..j], carry;
      carry := carry + res[j] * 58;
      NextDigit(256, 58, bytes, j, before, c);
      res := res[j := carry % 256];
      carry := carry / 256;
      assert res[..j + 1] == before + [res[j]];
    }
    assert res[..|bytes|] == res;
    while carry > 0
      invariant res + Push(256, carry) == MulAdd(256, 58, bytes, d)
    {
      assert res + ([carry % 256] + Push(256, carry / 256)) == (res + [carry % 256]) + Push(256, carry / 256);
      res := res + [carry % 256];
      carry := carry / 256;
    }
  }

  lemma NextDigit(base: nat, mul: nat, ds: seq<nat>, j: nat, done: seq<nat>, carry: nat)
    requires base > 1 && j < |ds|
    ensures var c := carry + ds[j] * mul;
            done + MulAdd(base, mul, ds[j..], carry)
            == (done + [c % base]) + MulAdd(base, mul, ds[j + 1..], c / base)
  {
    assert ds[j..][1..] == ds[j + 1..];
  }

  // ---------- encoding ----------

  /** Base-58 digits of the bytes read so far. */
  function Digits(data: seq<byte>): seq<nat> {
    if data == [] then [] else MulAdd(58, 256, Digits(data[..|data| - 1]), data[|data| - 1])
  }

  function LeadingZeros(data: seq<byte>): (z: nat)
    ensures z <= |data|
    ensures forall i :: 0 <= i < z ==> data[i] == 0
    ensures z < |data| ==> data[z] != 0
  {
    if data == [] || data[0] != 0 then 0 else 1 + LeadingZeros(data[1..])
  }

  lemma {:induction false} DigitsExact(data: seq<byte>)
    ensures Canonical(58, Digits(data)) && Value(58, Digits(data)) == FromBE(data)
  {
    if data != [] {
      var n := |data| - 1;
      DigitsExact(data[..n]);
      MulAddCanonical(58, 256, Digits(data[..n]), data[n]);
      MulAddValue(58, 256, Digits(data[..n]), data[n]);
    }
  }

  function Symbol(d: nat): char
    requires d < 58
  {
    ALPHABET[d]
  }

  /** Digits spelled from the highest down. */
  function Spell(ds: seq<nat>): (s: string)
    requires InRange(58, ds)
    ensures |s| == |ds|
  {
    if ds == [] then "" else Spell(ds[1..]) + [Symbol(ds[0])]
  }

  function Ones(n: nat): (s: string)
    ensures |s| == n
    ensures forall i :: 0 <= i < n ==> s[i] == '1'
  {
    if n == 0 then "" else ['1'] + Ones(n - 1)
  }

  /** One '1' per leading zero byte, then the number; the empty input encodes as the empty string. */
  function Encode(data: seq<byte>): string {
    DigitsExact(data);
    Ones(LeadingZeros(data)) + Spell(Digits(data))
  }

  method ToDigits(data: seq<byte>) returns (digits: seq<nat>)
    ensures digits == Digits(data)
  {
    digits := [];
    for i := 0 to |data|
      invariant digits == Digits(data[..i])
    {
      DigitsExact(data[..i]);
      assert data[..i + 1][..i] == data[..i];
      digits := TimesByte(digits, data[i]);
    }
    assert data[..|data|] == data;
  }

  method OnesFor(data: seq<byte>) returns (result: string)
    ensures result == Ones(LeadingZeros(data))
  {
    result := "";
    var i := 0;
    assert data[0..] == data;
    while i < |data| && data[i] == 0
      invariant 0 <= i <= |data|
      invariant i + LeadingZeros(data[i..]) == LeadingZeros(data)
      invariant result == Ones(i)
    {
      assert data[i..][1..] == data[i + 1..];
      OnesAppend(i);
      result := result + ['1'];
      i := i + 1;
    }
  }

  method EncodeBase58(data: seq<byte>) returns (result: string)
    ensures result == Encode(data)
  {
    if |data| == 0 {
      return "";
    }
    var digits := ToDigits(data);
    DigitsExact(data);
    result := OnesFor(data);
    ghost var ones := result;
    var k := |digits|;
    assert digits[..k] == digits;
    while k > 0
      invariant 0 <= k <= |digits|
      invariant result + Spell(digits[..k]) == ones + Spell(digits)
    {
      k := k - 1;
      SpellNext(digits, k, result);
      result := result + [Symbol(digits[k])];
    }
    assert result + Spell([]) == result;
  }

  lemma SpellNext(ds: seq<nat>, k: nat, done: string)
    requires k < |ds| && InRange(58, ds)
    ensures done + Spell(ds[..k + 1]) == (done + [Symbol(ds[k])]) + Spell(ds[..k])
  {
    SpellLast(ds[..k + 1]);
    assert ds[..k + 1][..k] == ds[..k];
  }

  lemma {:induction false} OnesAppend(n: nat)
    ensures Ones(n) + ['1'] == Ones(n + 1)
  {
  }

  lemma {:induction false} SpellLast(ds: seq<nat>)
    requires ds != [] && InRange(58, ds)
    ensures Spell(ds) == [Symbol(ds[|ds| - 1])] + Spell(ds[..|ds| - 1])
  {
    var n := |ds| - 1;
    if n > 0 {
      SpellLast(ds[1..]);
      assert ds[1..][..n - 1] == ds[..n][1..];
    }
  }

  // ---------- decoding ----------

  /** `strchr` over the alphabet: the place of a symbol, 58 for the NUL that ends it. */
  function Find(c: char, from: nat): (p: Option<nat>)
    requires from <= 58
    ensures p.Some? ==> from <= p.value <= 58
    decreases 58 - from
  {
    if from == 58 then (if c == '\0' then Some(58) else None)
    else if ALPHABET[from] == c then Some(from)
    else Find(c, from + 1)
  }

  method StrChr(c: char) returns (p: Option<nat>)
    ensures p == Find(c, 0)
  {
    var i := 0;
    while i < 58
      invariant 0 <= i <= 58
      invariant Find(c, i) == Find(c, 0)
    {
      if ALPHABET[i] == c { return Some(i); }
      i := i + 1;
    }
    return if c == '\0' then Some(58) else None;
  }

  /** Bytes, lowest first, of the number read so far; None after a foreign symbol. */
  function BytesOf(s: string): (r: Option<seq<nat>>)
    ensures r.Some? ==> Canonical(256, r.value)
  {
    if s == "" then Some([]) else
    var n := |s| - 1;
    var p := Find(s[n], 0);
    if BytesOf(s[..n]).None? || p.None? then None else
    MulAddCanonical(256, 58, BytesOf(s[..n]).value, p.value);
    Some(MulAdd(256, 58, BytesOf(s[..n]).value, p.value))
  }

  function LeadingOnes(s: string): (z: nat)
    ensures z <= |s|
  {
    if s == "" || s[0] != '1' then 0 else 1 + LeadingOnes(s[1..])
  }

  function AsBytes(ds: seq<nat>): (bs: seq<byte>)
    requires Canonical(256, ds)
    ensures |bs| == |ds| && forall i :: 0 <= i < |ds| ==> bs[i] == ds[i]
  {
    seq<byte>(|ds|, i requires 0 <= i < |ds| => ds[i])
  }

  /** The bytes stay lowest first: nothing reverses them before the zeros are put in front. */
  function Decode(s: string): seq<byte> {
    if BytesOf(s).None? then [] else Zeros(LeadingOnes(s)) + AsBytes(BytesOf(s).value)
  }

  lemma {:induction false} ForeignStays(s: string, k: nat)
    requires k <= |s| && BytesOf(s[..k]).None?
    ensures BytesOf(s).None?
    decreases |s| - k
  {
    if k < |s| {
      assert s[..k + 1][..k] == s[..k];
      ForeignStays(s, k + 1);
    } else {
      assert s[..k] == s;
    }
  }

  method ReadSymbols(s: string) returns (bytes: Option<seq<nat>>)
    ensures bytes == BytesOf(s)
  {
    var acc: seq<nat> := [];
    for i := 0 to |s|
      invariant BytesOf(s[..i]) == Some(acc)
    {
      assert s[..i + 1][..i] == s[..i];
      var p := StrChr(s[i]);
      if p.None? {
        ForeignStays(s, i + 1);
        return None;
      }
      acc := TimesDigit(acc, p.value);
    }
    assert s[..|s|] == s;
    return Some(acc);
  }

  lemma ZeroInFront(n: nat, number: seq<byte>)
    ensures [0] + (Zeros(n) + number) == Zeros(n + 1) + number
  {
    assert Zeros(n + 1) == [0] + Zeros(n);
  }

  method PrependZeros(s: string, number: seq<byte>) returns (result: seq<byte>)
    ensures result == Zeros(LeadingOnes(s)) + number
  {
    result := number;
    var i := 0;
    assert s[0..] == s && Zeros(0) + number == number;
    while i < |s| && s[i] == '1'
      invariant 0 <= i <= |s|
      invariant i + LeadingOnes(s[i..]) == LeadingOnes(s)
      invariant result == Zeros(i) + number
    {
      assert s[i..][1..] == s[i + 1..];
      ZeroInFront(i, number);
      result := [0] + result;
      i := i + 1;
    }
  }

  method DecodeBase58(s: string) returns (result: seq<byte>)
    ensures result == Decode(s)
  {
    var bytes := ReadSymbols(s);
    if bytes.None? {
      return [];
    }
    result := PrependZeros(s, AsBytes(bytes.value));
  }
}
