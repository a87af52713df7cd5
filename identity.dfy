/** Poster identifiers: `App.simpleHash` and `App.getOrGenerateId`.

    A post's `uid` is either an explicit identifier, written with the prefix
    `ID:`, which is shown as it is, or a key such as a poster's name, which is
    turned into `ID:` followed by eight characters derived from a 32-bit hash
    of the key. Generated identifiers are cached per key in `idMap`. */
module Identity {
  import opened Text

  // ---------------------------------------------------------------------
  // 32-bit integers as JavaScript's bitwise operators see them

  const Two31: int := 0x8000_0000
  const Two32: int := 0x1_0000_0000

  predicate IsInt32(x: int) {
    -Two31 <= x < Two31
  }

  /** ECMAScript's ToInt32: the signed 32-bit integer congruent to `x`
      modulo 2^32. */
  function ToInt32(x: int): (r: int)
    ensures IsInt32(r)
    ensures (x - r) % Two32 == 0
  {
    var m := x % Two32;
    if m >= Two31 then m - Two32 else m
  }

  /** There is only one such integer. */
  lemma ToInt32Unique(x: int, r: int)
    requires IsInt32(r) && (x - r) % Two32 == 0
    ensures ToInt32(x) == r
  {
    var s := ToInt32(x);
    var a := (x - r) / Two32;
    var b := (x - s) / Two32;
    assert x - r == a * Two32;
    assert x - s == b * Two32;
    assert s - r == (a - b) * Two32;
  }

  /** Integers congruent modulo 2^32 have the same 32-bit value. */
  lemma ToInt32Congruent(x: int, y: int, k: int)
    requires x - y == k * Two32
    ensures ToInt32(x) == ToInt32(y)
  {
    var r := ToInt32(y);
    var b := (y - r) / Two32;
    assert y - r == b * Two32;
    assert x - r == (k + b) * Two32;
    ToInt32Unique(x, r);
  }

  /** `h << 5` for a 32-bit `h`: the low 32 bits of `h * 32`, read as signed. */
  function ShiftLeft5(h: int): int {
    ToInt32(h * 32)
  }

  /** One step of the loop: `hash = (hash << 5) - hash + code; hash |= 0`.
      The subtraction and addition happen on doubles, exactly, since both
      operands stay far below 2^53. */
  function HashStep(h: int, code: int): int {
    ToInt32(ShiftLeft5(h) - h + code)
  }

  /** The step is multiplication by 31 and addition, modulo 2^32. */
  lemma HashStepIsTimes31(h: int, code: int)
    ensures HashStep(h, code) == ToInt32(31 * h + code)
  {
    var s := ShiftLeft5(h);
    var k := (h * 32 - s) / Two32;
    assert h * 32 - s == k * Two32;
    ToInt32Congruent(s - h + code, 31 * h + code, -k);
  }

  /** The value of `hash` after the loop has run over `s`. */
  function Hash32(s: string): (h: int)
    ensures IsInt32(h)
  {
    if s == [] then 0 else HashStep(Hash32(s[..|s| - 1]), s[|s| - 1] as int)
  }

  /** The polynomial string hash: the sum of `s[i] * 31^(|s|-1-i)`, with no
      overflow. */
  function PolyHash(s: string): int {
    if s == [] then 0 else 31 * PolyHash(s[..|s| - 1]) + s[|s| - 1] as int
  }

  /** The loop computes the polynomial hash reduced to 32 bits. */
  lemma {:induction false} Hash32IsPolyHash(s: string)
    ensures Hash32(s) == ToInt32(PolyHash(s))
  {
    if s != [] {
      var init := s[..|s| - 1];
      var code := s[|s| - 1] as int;
      Hash32IsPolyHash(init);
      var p := PolyHash(init);
      var h := ToInt32(p);
      HashStepIsTimes31(h, code);
      var k := (p - h) / Two32;
      assert p - h == k * Two32;
      assert (31 * p + code) - (31 * h + code) == (31 * k) * Two32;
      ToInt32Congruent(31 * p + code, 31 * h + code, 31 * k);
    }
  }

  /** `Math.abs` on a 32-bit value: at most 2^31. */
  function Abs(h: int): (a: nat)
    ensures IsInt32(h) ==> a <= Two31
    ensures a == h || a == -h
  {
    if h < 0 then -h else h
  }

  // ---------------------------------------------------------------------
  // Number.prototype.toString(36) and the string operations that follow

  /** The base-36 digit for `d`, in lower case as `toString(36)` writes it. */
  function DigitChar(d: nat): (c: char)
    requires d < 36
    ensures IsLowerDigit(c)
  {
    if d < 10 then ('0' as int + d) as char else ('a' as int + d - 10) as char
  }

  predicate IsLowerDigit(c: char) {
    ('0' <= c <= '9') || ('a' <= c <= 'z')
  }

  predicate IsUpperDigit(c: char) {
    ('0' <= c <= '9') || ('A' <= c <= 'Z')
  }

  /** The value of a base-36 digit. */
  function DigitValue(c: char): (d: nat)
    requires IsLowerDigit(c)
    ensures d < 36
  {
    if c <= '9' then c as int - '0' as int else c as int - 'a' as int + 10
  }

  /** `n.toString(36)`: most significant digit first, no leading zeros. */
  function ToBase36(n: nat): (r: string)
    ensures 1 <= |r|
    ensures forall i :: 0 <= i < |r| ==> IsLowerDigit(r[i])
    ensures r[0] == '0' <==> n == 0
    decreases n
  {
    if n < 36 then [DigitChar(n)] else ToBase36(n / 36) + [DigitChar(n % 36)]
  }

  /** Reading a string of base-36 digits back as a number. */
  function FromBase36(s: string): nat
    requires forall i :: 0 <= i < |s| ==> IsLowerDigit(s[i])
  {
    if s == [] then 0 else FromBase36(s[..|s| - 1]) * 36 + DigitValue(s[|s| - 1])
  }

  /** The digits written are those of `n`. */
  lemma {:induction false} Base36RoundTrip(n: nat)
    ensures FromBase36(ToBase36(n)) == n
    decreases n
  {
    if n >= 36 {
      var r := ToBase36(n);
      Base36RoundTrip(n / 36);
      assert r[..|r| - 1] == ToBase36(n / 36);
    }
  }

  function Pow36(k: nat): (p: nat)
    ensures 1 <= p
  {
    if k == 0 then 1 else 36 * Pow36(k - 1)
  }

  /** A number below 36^k is written in at most k digits. */
  lemma {:induction false} Base36Length(n: nat, k: nat)
    requires 1 <= k && n < Pow36(k)
    ensures |ToBase36(n)| <= k
    decreases k
  {
    if n >= 36 {
      assert n / 36 < Pow36(k - 1);
      Base36Length(n / 36, k - 1);
    }
  }

  /** `String.prototype.substring(0, n)`. */
  function Take(s: string, n: nat): (r: string)
    ensures |r| == if |s| <= n then |s| else n
    ensures r == s[..|r|]
  {
    if |s| <= n then s else s[..n]
  }

  /** Upper case of an ASCII letter; any other character is kept. */
  function UpperCase(c: char): char {
    if 'a' <= c <= 'z' then (c as int - 32) as char else c
  }

  /** `String.prototype.toUpperCase`, on the ASCII letters it meets here. */
  function ToUpper(s: string): (r: string)
    ensures |r| == |s|
    ensures forall i :: 0 <= i < |s| ==> r[i] == UpperCase(s[i])
  {
    if s == [] then [] else [UpperCase(s[0])] + ToUpper(s[1..])
  }

  /** `String.prototype.padEnd(n, c)` with a one-character filler. */
  function PadEnd(s: string, n: nat, c: char): (r: string)
    ensures |r| == if |s| < n then n else |s|
    ensures r[..|s|] == s
    ensures forall i :: |s| <= i < |r| ==> r[i] == c
  {
    if |s| < n then s + seq(n - |s|, _ => c) else s
  }

  /** The eight characters shown for the absolute hash value `a`:
      `a.toString(36).substring(0, 8).toUpperCase().padEnd(8, 'X')`. */
  function HashDigits(a: nat): string {
    PadEnd(ToUpper(Take(ToBase36(a), 8)), 8, 'X')
  }

  /** `simpleHash(str)`. */
  function HashText(str: string): string {
    HashDigits(Abs(Hash32(str)))
  }

  /** For every absolute 32-bit hash value: the base-36 form has one to six
      digits, so `substring(0, 8)` never cuts it (whether the first or the
      last eight are taken makes no difference), and the eight characters
      are those digits in upper case followed by at least two `X`. */
  lemma HashDigitsShape(a: nat)
    requires a <= Two31
    ensures var b := ToBase36(a);
      && |b| <= 6
      && Take(b, 8) == b
      && |HashDigits(a)| == 8
      && HashDigits(a)[..|b|] == ToUpper(b)
      && (forall i :: |b| <= i < 8 ==> HashDigits(a)[i] == 'X')
      && (forall i :: 0 <= i < 8 ==> IsUpperDigit(HashDigits(a)[i]))
      && HashDigits(a)[6..] == "XX"
  {
    var b := ToBase36(a);
    assert Pow36(6) == 2176782336;
    Base36Length(a, 6);
    var r := HashDigits(a);
    forall i | 0 <= i < 8 ensures IsUpperDigit(r[i]) {
      if i < |b| {
        assert r[i] == r[..|b|][i];
      }
    }
  }

  /** Every hash is eight characters from `0-9A-Z`, the last two `X`. */
  lemma HashTextShape(str: string)
    ensures |HashText(str)| == 8
    ensures forall i :: 0 <= i < 8 ==> IsUpperDigit(HashText(str)[i])
    ensures HashText(str)[6..] == "XX"
  {
    HashDigitsShape(Abs(Hash32(str)));
  }

  /** The empty key hashes to `0` padded with `X`. */
  lemma HashTextEmpty()
    ensures HashText("") == "0XXXXXXX"
  {
    assert ToBase36(0) == "0";
    var r := HashText("");
    assert r == "0" + seq(7, _ => 'X');
  }

  /** Padding with `X` hides a final base-36 digit `x` (33): the values 1 and
      1 * 36 + 33 give the same eight characters. */
  lemma PaddingHidesDigitX()
    ensures HashDigits(1) == HashDigits(69)
  {
    assert ToBase36(69) == ToBase36(1) + [DigitChar(33)];
    assert ToBase36(1) == "1";
    assert ToBase36(69) == "1x";
    assert ToUpper("1x") == "1X";
    assert HashDigits(1) == "1" + seq(7, _ => 'X');
    assert HashDigits(69) == "1X" + seq(6, _ => 'X');
  }

  // ---------------------------------------------------------------------
  // Identifiers

  const IdPrefix: string := "ID:"

  /** The identifier shown for `uid`: an explicit identifier as it is, any
      other key as `ID:` and its hash. */
  function IdFor(uid: string): string {
    if StartsWith(uid, IdPrefix) then uid else IdPrefix + HashText(uid)
  }

  /** Every identifier shown starts with `ID:`; a generated one has eight
      characters after it. */
  lemma IdForShape(uid: string)
    ensures StartsWith(IdFor(uid), IdPrefix)
    ensures !StartsWith(uid, IdPrefix) ==> |IdFor(uid)| == 11
  {
    HashTextShape(uid);
    assert (IdPrefix + HashText(uid))[..3] == IdPrefix;
  }

  /** An identifier, passed in again as a uid, is shown unchanged. */
  lemma IdForIdempotent(uid: string)
    ensures IdFor(IdFor(uid)) == IdFor(uid)
  {
    IdForShape(uid);
  }

  /** The page application, reduced to the state the identifier cache keeps. */
  class App {
    /** Generated identifiers, by the key they were generated from. */
    var idMap: map<string, string>

    /** Every cached key is a key (not an explicit identifier), and its
        entry is the identifier generated from it. */
    ghost predicate Valid()
      reads this
    {
      forall k :: k in idMap ==> !StartsWith(k, IdPrefix) && idMap[k] == IdPrefix + HashText(k)
    }

    constructor()
      ensures Valid() && idMap == map[]
    {
      idMap := map[];
    }

    /** `simpleHash`: the 32-bit loop, then the base-36 text. */
    method SimpleHash(str: string) returns (r: string)
      ensures r == HashText(str)
      ensures |r| == 8 && r[6..] == "XX"
      ensures forall i :: 0 <= i < 8 ==> IsUpperDigit(r[i])
      ensures str == [] ==> r == "0XXXXXXX"
    {
      var hash := 0;
      for i := 0 to |str|
        invariant hash == Hash32(str[..i])
      {
        assert str[..i + 1][..i] == str[..i];
        hash := ShiftLeft5(hash) - hash + str[i] as int;
        hash := ToInt32(hash);
      }
      assert str[..|str|] == str;
      var digits := ToBase36(Abs(hash));
      r := PadEnd(ToUpper(Take(digits, 8)), 8, 'X');
      HashTextShape(str);
      if str == [] {
        HashTextEmpty();
      }
    }

    /** `getOrGenerateId(uidInput, name)`; `name` is not used. */
    method GetOrGenerateId(uidInput: string, name: string) returns (id: string)
      requires Valid()
      modifies this
      ensures Valid()
      ensures id == IdFor(uidInput)
      ensures StartsWith(uidInput, IdPrefix) || uidInput in old(idMap) ==> idMap == old(idMap)
      ensures !StartsWith(uidInput, IdPrefix) ==> idMap == old(idMap)[uidInput := id]
    {
      if StartsWith(uidInput, IdPrefix) {
        return uidInput;
      }
      if uidInput in idMap {
        return idMap[uidInput];
      }
      var randomStr := SimpleHash(uidInput);
      var finalId := IdPrefix + randomStr;
      idMap := idMap[uidInput := finalId];
      return finalId;
    }
  }
}
