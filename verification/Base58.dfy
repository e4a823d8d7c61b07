/**
 Base58 (src/base58.cpp): numbers converted between bases 256 and 58 digit by digit, in a buffer whose
 size is estimated beforehand.  A string is what precedes the terminating null.
 */
module Base58 {
  import opened NatMath
  import opened VarInt

  // ----- numbers in a base, most significant digit first

  predicate IsDigits(b: nat, s: seq<nat>) {
    forall i :: 0 <= i < |s| ==> s[i] < b
  }

  function Val(b: nat, s: seq<nat>): nat {
    if s == [] then 0 else Val(b, s[..|s| - 1]) * b + s[|s| - 1]
  }

  lemma {:induction false} ValCons(b: nat, x: nat, s: seq<nat>)
    ensures Val(b, [x] + s) == x * Pow(b, |s|) + Val(b, s)
    decreases |s|
  {
    if s == [] {
      assert [x] + s == [x] && [x][..0] == [];
    } else {
      var n := |s| - 1;
      ValCons(b, x, s[..n]);
      assert s == s[..n] + [s[n]];
      assert [x] + s == ([x] + s[..n]) + [s[n]];
      ValSnoc(b, [x] + s[..n], s[n]);
      ValSnoc(b, s[..n], s[n]);
      PowNext(b, n);
      hide Val, Pow;
      Regroup(x, Pow(b, n), Val(b, s[..n]), b);
    }
  }

  lemma ValSnoc(b: nat, s: seq<nat>, x: nat)
    ensures Val(b, s + [x]) == Val(b, s) * b + x
  {
    assert (s + [x])[..|s|] == s;
  }

  lemma {:induction false} ValBound(b: nat, s: seq<nat>)
    requires IsDigits(b, s)
    ensures Val(b, s) < Pow(b, |s|)
    decreases |s|
  {
    if s != [] {
      var n := |s| - 1;
      ValBound(b, s[..n]);
      MulMono(Val(b, s[..n]) + 1, Pow(b, n), b);
      MulDistrib(Val(b, s[..n]), 1, b);
    }
  }

  /** The digits of a number, without leading zeros. */
  function Digits(b: nat, v: nat): (r: seq<nat>)
    requires b >= 2
    ensures IsDigits(b, r)
    ensures r == [] <==> v == 0
  {
    if v == 0 then [] else DivShrinks(v, b); Smaller(v, b); Digits(b, v / b) + [v % b]
  }

  lemma Smaller(v: nat, b: nat)
    requires v > 0 && b >= 2
    ensures 0 <= v / b < v
  {
    assert v == v / b * b + v % b;
    DivShrinks(v, b);
    MulMono(2, b, v / b);
  }

  lemma {:induction false} ValDigits(b: nat, v: nat)
    requires b >= 2
    ensures Val(b, Digits(b, v)) == v
    ensures v > 0 ==> Digits(b, v)[0] != 0
    decreases v
  {
    if v == 0 {
      assert Digits(b, 0) == [];
    } else {
      DigitsStep(b, v);
      ValSnoc(b, Digits(b, v / b), v % b);
      hide Val, Digits;
      Smaller(v, b);
      ValDigits(b, v / b);
      DivisionBack(v, b);
    }
  }

  lemma DigitsStep(b: nat, v: nat)
    requires b >= 2 && v > 0
    ensures v / b >= 0 && Digits(b, v) == Digits(b, v / b) + [v % b]
  {
    Smaller(v, b);
  }

  lemma DivisionBack(v: nat, b: nat)
    requires b > 0
    ensures v == v / b * b + v % b && (v / b == 0 ==> v % b == v)
  {
  }

  /** Digits without a leading zero are the digits of their value. */
  lemma {:induction false} DigitsUnique(b: nat, s: seq<nat>)
    requires b >= 2 && IsDigits(b, s) && (s != [] ==> s[0] != 0)
    ensures Digits(b, Val(b, s)) == s
    decreases |s|
  {
    if s != [] {
      var n := |s| - 1;
      if n > 0 {
        DigitsUnique(b, s[..n]);
        assert Digits(b, Val(b, s[..n])) != [];
        MulMono(1, Val(b, s[..n]), b);
      } else {
        assert s[..n] == [];
      }
      DivUnique(Val(b, s), b, Val(b, s[..n]), s[n]);
      assert s == s[..n] + [s[n]];
    }
  }

  // ----- conversion

  function Zeros(s: seq<nat>): (n: nat)
    ensures n <= |s| && (forall i :: 0 <= i < n ==> s[i] == 0) && (n < |s| ==> s[n] != 0)
  {
    if s == [] || s[0] != 0 then 0 else 1 + Zeros(s[1..])
  }

  function Rep(x: nat, n: nat): (r: seq<nat>)
    ensures |r| == n && forall i :: 0 <= i < n ==> r[i] == x
  {
    seq(n, _ => x)
  }

  /** From one base to the other; a leading zero stays a leading zero. */
  function Convert(from: nat, to: nat, s: seq<nat>): seq<nat>
    requires to >= 2
  {
    Rep(0, Zeros(s)) + Digits(to, Val(from, s))
  }

  lemma {:induction false} ValZeros(b: nat, n: nat, s: seq<nat>)
    ensures Val(b, Rep(0, n) + s) == Val(b, s)
    decreases n
  {
    if n == 0 {
      assert Rep(0, 0) + s == s;
    } else {
      ValZeros(b, n - 1, s);
      assert Rep(0, n) + s == [0] + (Rep(0, n - 1) + s);
      ValCons(b, 0, Rep(0, n - 1) + s);
    }
  }

  lemma ZerosUnique(s: seq<nat>, n: nat)
    requires n <= |s| && (forall i :: 0 <= i < n ==> s[i] == 0) && (n < |s| ==> s[n] != 0)
    ensures Zeros(s) == n
  {
    var z := Zeros(s);
    assert z == |s| || s[z] != 0;
    assert n == |s| || s[n] != 0;
  }

  /** Converting there and back is the identity, in both directions. */
  lemma ConvertBack(from: nat, to: nat, s: seq<nat>)
    requires from >= 2 && to >= 2 && IsDigits(from, s)
    ensures IsDigits(to, Convert(from, to, s)) && Convert(to, from, Convert(from, to, s)) == s
  {
    var z := Zeros(s);
    var v, c := Val(from, s), Convert(from, to, s);
    ValDigits(to, v);
    ValZeros(to, z, Digits(to, v));
    ZerosUnique(c, z);
    assert s == Rep(0, z) + s[z..];
    ValZeros(from, z, s[z..]);
    DigitsUnique(from, s[z..]);
  }

  // ----- the size of the buffers

  /** 256^50 <= 58^69. */
  lemma Ratio256To58()
    ensures Pow(256, 50) <= Pow(58, 69)
  {
    hide Pow;
    Power58To7();
    Power58To64();
    Powers256();
    PowAdd(58, 64, 5);
    PowAdd(256, 32, 18);
  }

  /** 58^71 <= 256^52. */
  lemma Ratio58To256()
    ensures Pow(58, 71) <= Pow(256, 52)
  {
    hide Pow;
    Power58To7();
    Power58To64();
    Powers256();
    PowAdd(58, 64, 7);
    PowAdd(256, 32, 20);
  }

  lemma Power58To7()
    ensures Pow(58, 4) == 0xacad10 && Pow(58, 5) == 0x271f35a0 && Pow(58, 7) == 0x202161caa80
  {
    assert Pow(58, 3) == 195112 && Pow(58, 4) == 11316496;
    PowNext(58, 4);
    PowNext(58, 5);
    PowNext(58, 6);
  }

  lemma Power58To16()
    ensures Pow(58, 16) == 0x34fde3761da26b26e1410000
  {
    hide Pow;
    Power58To7();
    PowAdd(58, 4, 4);
    PowAdd(58, 8, 8);
  }

  lemma Power58To64()
    ensures Pow(58, 64) == 0x7853026ae25f4ce0c69893e6f1f86f67aef4db69563516064adeb967a9d66f4fe64b09ec94e5010000000000000000
  {
    hide Pow;
    Power58To16();
    PowAdd(58, 16, 16);
    PowAdd(58, 32, 32);
  }

  lemma Powers256()
    ensures Pow(256, 18) == 0x1000000000000000000000000000000000000 && Pow(256, 20) == 0x10000000000000000000000000000000000000000 && Pow(256, 32) == 0x10000000000000000000000000000000000000000000000000000000000000000
  {
    assert Pow(256, 2) == 0x1_0000 && Pow(256, 4) == 0x1_0000_0000;
    hide Pow;
    PowAdd(256, 4, 4);
    PowAdd(256, 8, 8);
    PowAdd(256, 16, 2);
    PowAdd(256, 16, 4);
    PowAdd(256, 16, 16);
  }

  /** From a ratio of exponents to every length: if a^p <= b^q and p * k >= q * n then a^n <= b^k. */
  lemma RatioSuffices(a: nat, b: nat, p: nat, q: nat, n: nat, k: nat)
    requires b >= 1 && p >= 1 && Pow(a, p) <= Pow(b, q) && p * k >= q * n
    ensures Pow(a, n) <= Pow(b, k)
  {
    hide Pow;
    PowMul(a, p, n);
    PowMul(a, n, p);
    PowMul(b, q, n);
    PowMul(b, k, p);
    PowBaseMono(Pow(a, p), Pow(b, q), n);
    PowMono(b, q * n, p * k);
    assert k * p == p * k && n * p == p * n;
    if Pow(a, n) > Pow(b, k) {
      PowBaseStrict(Pow(b, k), Pow(a, n), p);
      assert false;
    }
  }

  lemma EncodeBufferSuffices(n: nat)
    ensures Pow(256, n) <= Pow(58, n * 138 / 100 + 1)
  {
    hide Pow;
    Ratio256To58();
    RatioSuffices(256, 58, 50, 69, n, n * 138 / 100 + 1);
  }

  lemma DecodeBufferSuffices(n: nat, length: nat)
    requires n <= length
    ensures Pow(58, n) <= Pow(256, length * 733 / 1000 + 1)
  {
    hide Pow;
    Ratio58To256();
    RatioSuffices(58, 256, 71, 52, n, length * 733 / 1000 + 1);
  }

  // ----- the alphabet

  /** pszBase58: the digits and letters without 0, I, O and l, in ascending order. */
  function CharOf(d: nat): char
    requires d < 58
  {
    if d < 9 then '1' + d as char
    else if d < 17 then 'A' + (d - 9) as char
    else if d < 22 then 'J' + (d - 17) as char
    else if d < 33 then 'P' + (d - 22) as char
    else if d < 44 then 'a' + (d - 33) as char
    else 'm' + (d - 44) as char
  }

  lemma CharInjective(d: nat, e: nat)
    requires d < e < 58
    ensures CharOf(d) < CharOf(e)
  {
  }

  /** strchr: where a character is in the alphabet, from `d` on. */
  function Position(c: char, d: nat): (r: int)
    requires d <= 58
    ensures -1 <= r < 58 && (r >= 0 ==> r >= d && CharOf(r) == c)
    ensures r == -1 ==> forall e :: d <= e < 58 ==> CharOf(e) != c
    decreases 58 - d
  {
    if d == 58 then -1 else if CharOf(d) == c then d else Position(c, d + 1)
  }

  lemma PositionOfChar(d: nat)
    requires d < 58
    ensures Position(CharOf(d), 0) == d
  {
    var r := Position(CharOf(d), 0);
    if r < d { CharInjective(r, d); } else if r > d { CharInjective(d, r); }
  }

  function ToText(digits: seq<nat>): (r: string)
    requires IsDigits(58, digits)
    ensures |r| == |digits| && forall i :: 0 <= i < |r| ==> r[i] == CharOf(digits[i])
  {
    seq(|digits|, i requires 0 <= i < |digits| => CharOf(digits[i]))
  }

  predicate InAlphabet(text: string) {
    forall i :: 0 <= i < |text| ==> Position(text[i], 0) >= 0
  }

  function ToDigits(text: string): (r: seq<nat>)
    requires InAlphabet(text)
    ensures |r| == |text| && (forall i :: 0 <= i < |r| ==> r[i] == Position(text[i], 0)) && IsDigits(58, r)
  {
    seq(|text|, i requires 0 <= i < |text| => Position(text[i], 0))
  }

  lemma TextRoundTrips(digits: seq<nat>, text: string)
    ensures IsDigits(58, digits) ==> InAlphabet(ToText(digits)) && ToDigits(ToText(digits)) == digits
    ensures InAlphabet(text) ==> ToText(ToDigits(text)) == text
  {
    if IsDigits(58, digits) {
      forall i | 0 <= i < |digits| ensures Position(ToText(digits)[i], 0) == digits[i] {
        PositionOfChar(digits[i]);
      }
    }
  }

  // ----- the buffers

  /** The inner loop of both directions: the number in the buffer times `factor`, plus `x`. */
  method MultiplyAdd(buf: array<nat>, base: nat, factor: nat, x: nat) returns (carry: nat)
    requires base >= 2 && IsDigits(base, buf[..])
    modifies buf
    ensures IsDigits(base, buf[..])
    ensures Val(base, buf[..]) + carry * Pow(base, buf.Length) == old(Val(base, buf[..])) * factor + x
  {
    hide Val, Pow;
    ghost var old' := buf[..];
    carry := x;
    var i := buf.Length;
    ValEmpty(base);
    assert old'[i..] == [] && buf[i..] == [];
    while i > 0
      invariant 0 <= i <= buf.Length && IsDigits(base, buf[..]) && buf[..i] == old'[..i]
      invariant Val(base, buf[i..]) + carry * Pow(base, buf.Length - i) == Val(base, old'[i..]) * factor + x
    {
      i := i - 1;
      ghost var low, n := buf[i + 1..], carry + factor * buf[i];
      assert old'[i..] == [buf[i]] + old'[i + 1..];
      carry := carry + factor * buf[i];
      DivShrinks(carry, base);
      buf[i] := carry % base;
      carry := carry / base;
      assert buf[i..] == [buf[i]] + low;
      BufferStep(base, factor, x, low, old'[i + 1..], old'[i], n);
    }
    assert buf[0..] == buf[..] && old'[0..] == old';
  }

  lemma ValEmpty(b: nat)
    ensures Val(b, []) == 0 && Pow(b, 0) == 1
  {
  }

  lemma BufferStep(base: nat, factor: nat, x: nat, low: seq<nat>, was: seq<nat>, d: nat, n: nat)
    requires base >= 2 && |low| == |was| && n >= factor * d
    requires Val(base, low) + (n - factor * d) * Pow(base, |low|) == Val(base, was) * factor + x
    ensures n / base >= 0 && Val(base, [n % base] + low) + n / base * Pow(base, |low| + 1) == Val(base, [d] + was) * factor + x
  {
    hide Val, Pow;
    var p := Pow(base, |low|);
    DivShrinks(n, base);
    ValCons(base, n % base, low);
    ValCons(base, d, was);
    PowNext(base, |low|);
    BufferAlgebra(n, n / base, n % base, base, p, d, factor, Val(base, was));
  }

  lemma BufferAlgebra(n: int, q: int, m: int, base: int, p: int, d: int, factor: int, v: int)
    requires n == q * base + m
    ensures m * p + q * (base * p) == n * p
    ensures (n - factor * d) * p == n * p - (d * p) * factor
    ensures (d * p + v) * factor == (d * p) * factor + v * factor
  {
    Regroup(q, base, m, p);
    MulAssoc(q, base, p);
    MulDistrib(n, -(factor * d), p);
    MulDistrib(factor * d, -(factor * d), p);
    MulAssoc(factor, d, p);
    MulDistrib(d * p, v, factor);
  }

  /** With room for the result nothing is carried out. */
  lemma NoCarry(v: nat, carry: nat, p: nat, n: nat)
    requires v + carry * p == n && n < p
    ensures carry == 0
  {
    if carry > 0 { MulMono(1, carry, p); }
  }

  /** Both directions after the leading zeros are counted: all of `s` into a buffer of `size` digits, and
      out of it without leading zeros.  No assertion on the carry fails if the buffer can hold any number
      of this length. */
  method ConvertDigits(from: nat, to: nat, s: seq<nat>, size: nat) returns (r: seq<nat>)
    requires from >= 2 && to >= 2 && IsDigits(from, s) && Pow(from, |s|) <= Pow(to, size)
    ensures r == Digits(to, Val(from, s))
  {
    hide Val, Pow, Digits;
    var buf := new nat[size](_ => 0);
    ValEmpty(from);
    ValEmpty(to);
    assert buf[..] == Rep(0, size) + [] && s[..0] == [];
    ValZeros(to, size, []);
    for p := 0 to |s|
      invariant IsDigits(to, buf[..]) && Val(to, buf[..]) == Val(from, s[..p])
    {
      var carry := MultiplyAdd(buf, to, from, s[p]);
      assert s[..p + 1] == s[..p] + [s[p]];
      ValSnoc(from, s[..p], s[p]);
      ValBound(from, s[..p + 1]);
      PowMono(from, p + 1, |s|);
      NoCarry(Val(to, buf[..]), carry, Pow(to, size), Val(from, s[..p + 1]));
      assert carry == 0;
    }
    assert s[..|s|] == s;
    // Skip leading zeroes.
    var it := 0;
    while it < buf.Length && buf[it] == 0
      invariant 0 <= it <= buf.Length && forall i :: 0 <= i < it ==> buf[i] == 0
    {
      it := it + 1;
    }
    r := buf[it..];
    assert buf[..] == Rep(0, it) + r;
    ValZeros(to, it, r);
    DigitsUnique(to, r);
  }

  method CountZeros(s: seq<nat>) returns (zeroes: nat)
    ensures zeroes == Zeros(s)
  {
    zeroes := 0;
    while zeroes < |s| && s[zeroes] == 0
      invariant 0 <= zeroes <= |s| && forall i :: 0 <= i < zeroes ==> s[i] == 0
    {
      zeroes := zeroes + 1;
    }
    ZerosUnique(s, zeroes);
  }

  lemma WithoutZeros(from: nat, to: nat, s: seq<nat>)
    requires to >= 2
    ensures Convert(from, to, s) == Rep(0, Zeros(s)) + Digits(to, Val(from, s[Zeros(s)..]))
  {
    assert s == Rep(0, Zeros(s)) + s[Zeros(s)..];
    ValZeros(from, Zeros(s), s[Zeros(s)..]);
  }

  function Encoded(bytes: seq<Byte>): (text: string) {
    ToText(Convert(256, 58, bytes))
  }

  /** `EncodeBase58`. */
  method EncodeBase58(bytes: seq<Byte>) returns (text: string)
    ensures text == Encoded(bytes)
  {
    hide Val, Pow, Digits;
    // Skip & count leading zeroes.
    var zeroes := CountZeros(bytes);
    var n := |bytes| - zeroes;
    EncodeBufferSuffices(n);
    var digits := ConvertDigits(256, 58, bytes[zeroes..], n * 138 / 100 + 1);
    WithoutZeros(256, 58, bytes);
    // Translate the result into a string.
    text := ToText(Rep(0, zeroes) + digits);
  }

  // ----- strings with blanks around them

  predicate IsSpace(c: char) {
    c == ' ' || '\t' <= c <= '\r'
  }

  /** How many characters from the start have the given kind. */
  function Run(text: string, space: bool): (n: nat)
    ensures n <= |text| && (forall i :: 0 <= i < n ==> IsSpace(text[i]) == space) && (n < |text| ==> IsSpace(text[n]) != space)
  {
    if text == [] || IsSpace(text[0]) != space then 0 else 1 + Run(text[1..], space)
  }

  method SkipRun(text: string, space: bool) returns (n: nat)
    ensures n == Run(text, space)
  {
    n := 0;
    while n < |text| && IsSpace(text[n]) == space
      invariant 0 <= n <= |text| && forall i :: 0 <= i < n ==> IsSpace(text[i]) == space
    {
      n := n + 1;
    }
    RunUnique(text, space, n);
  }

  lemma RunUnique(text: string, space: bool, n: nat)
    requires n <= |text| && (forall i :: 0 <= i < n ==> IsSpace(text[i]) == space) && (n < |text| ==> IsSpace(text[n]) != space)
    ensures Run(text, space) == n
  {
    var r := Run(text, space);
    assert r == |text| || IsSpace(text[r]) != space;
    assert n == |text| || IsSpace(text[n]) != space;
  }

  /** The word between the blanks, and what follows it. */
  function Word(text: string): string {
    var t := text[Run(text, true)..];
    t[..Run(t, false)]
  }

  function After(text: string): string {
    var t := text[Run(text, true)..];
    t[Run(t, false)..]
  }

  /** `DecodeBase58` accepts exactly one word over the alphabet with blanks around it. */
  method DecodeBase58(text: string) returns (ok: bool, bytes: seq<Byte>)
    ensures ok <==> InAlphabet(Word(text)) && Run(After(text), true) == |After(text)|
    ensures ok ==> bytes == Convert(58, 256, ToDigits(Word(text)))
  {
    hide Val, Pow, Digits, Position, Convert, Run, ToDigits;
    bytes := [];
    // Skip leading spaces.
    var start := SkipRun(text, true);
    var t := text[start..];
    // Process the characters.
    var length := SkipRun(t, false);
    var digits;
    ok, digits := ReadDigits(t[..length]);
    if !ok {
      return false, [];
    }
    // Skip trailing spaces.
    var rest := SkipRun(t[length..], true);
    if rest != |t[length..]| {
      return false, [];
    }
    bytes := FromDigits(digits, |t|);
  }

  /** The position of every character of a word in the alphabet. */
  method ReadDigits(word: string) returns (ok: bool, digits: seq<nat>)
    ensures ok <==> InAlphabet(word)
    ensures ok ==> digits == ToDigits(word)
  {
    digits := [];
    for i := 0 to |word|
      invariant |digits| == i && forall j :: 0 <= j < i ==> digits[j] == Position(word[j], 0) && digits[j] < 58
    {
      var d := Position(word[i], 0);
      if d == -1 {
        return false, [];
      }
      digits := digits + [d];
    }
    assert digits == ToDigits(word);
    ok := true;
  }

  /** From digits to bytes, with a buffer for a text of this length. */
  method FromDigits(digits: seq<nat>, length: nat) returns (bytes: seq<Byte>)
    requires IsDigits(58, digits) && |digits| <= length
    ensures bytes == Convert(58, 256, digits)
  {
    hide Val, Pow, Digits;
    // Skip and count leading '1's.
    var zeroes := CountZeros(digits);
    DecodeBufferSuffices(|digits| - zeroes, length - zeroes);
    var out := ConvertDigits(58, 256, digits[zeroes..], (length - zeroes) * 733 / 1000 + 1);
    WithoutZeros(58, 256, digits);
    ConvertBack(58, 256, digits);
    bytes := Rep(0, zeroes) + out;
  }

  /** Decoding inverts encoding on every byte string. */
  lemma DecodeInvertsEncode(bytes: seq<Byte>)
    ensures InAlphabet(Encoded(bytes)) && Word(Encoded(bytes)) == Encoded(bytes) && After(Encoded(bytes)) == []
    ensures Convert(58, 256, ToDigits(Encoded(bytes))) == bytes
  {
    hide Val, Pow, Digits, Position;
    var digits, text := Convert(256, 58, bytes), Encoded(bytes);
    ConvertBack(256, 58, bytes);
    TextRoundTrips(digits, text);
    forall i | 0 <= i < |text| ensures !IsSpace(text[i]) { NoBlanks(digits[i]); }
    RunUnique(text, true, 0);
    assert text[0..] == text;
    RunUnique(text, false, |text|);
    assert text[..|text|] == text;
  }

  lemma NoBlanks(d: nat)
    requires d < 58
    ensures !IsSpace(CharOf(d))
  {
  }

  /** Encoding inverts decoding on every word over the alphabet. */
  lemma EncodeInvertsDecode(word: string)
    requires InAlphabet(word)
    ensures IsDigits(256, Convert(58, 256, ToDigits(word))) && Encoded(Convert(58, 256, ToDigits(word))) == word
  {
    hide Val, Pow, Digits, Position;
    ConvertBack(58, 256, ToDigits(word));
    TextRoundTrips([], word);
  }

  // ----- with a checksum

  /** `EncodeBase58Check`: four bytes of a hash are added first. */
  method EncodeBase58Check(hash: seq<Byte> -> seq<Byte>, bytes: seq<Byte>) returns (text: string)
    requires |hash(bytes)| >= 4
    ensures text == Encoded(bytes + hash(bytes)[..4])
  {
    text := EncodeBase58(bytes + hash(bytes)[..4]);
  }

  /** `DecodeBase58Check` accepts exactly what `EncodeBase58Check` makes, blanks around it aside, and
      gives back what it was made from. */
  method DecodeBase58Check(hash: seq<Byte> -> seq<Byte>, text: string) returns (ok: bool, bytes: seq<Byte>)
    requires forall b :: |hash(b)| >= 4
    ensures ok ==> Encoded(bytes + hash(bytes)[..4]) == Word(text)
    ensures !ok ==> bytes == [] && (Run(After(text), true) == |After(text)| ==> forall b :: Encoded(b + hash(b)[..4]) != Word(text))
  {
    hide Convert, ToDigits, Position, CharOf, ToText, Run, Encoded;
    var valid, all := DecodeBase58(text);
    if valid { EncodeInvertsDecode(Word(text)); }
    forall b: seq<Byte> | Encoded(b + hash(b)[..4]) == Word(text)
      ensures InAlphabet(Word(text)) && Convert(58, 256, ToDigits(Word(text))) == b + hash(b)[..4]
    {
      DecodeInvertsEncode(b + hash(b)[..4]);
    }
    if !valid || |all| < 4 {
      return false, [];
    }
    var n := |all| - 4;
    assert all == all[..n] + all[n..];
    forall b: seq<Byte> | Encoded(b + hash(b)[..4]) == Word(text) ensures b == all[..n] && hash(b)[..4] == all[n..] {
      assert all == b + hash(b)[..4];
    }
    if hash(all[..n])[..4] != all[n..] {
      return false, [];
    }
    return true, all[..n];
  }
}
