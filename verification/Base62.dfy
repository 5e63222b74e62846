/** Base-62 short keys: the big-number division loop and its in-place reversal. */
module Base62 {

  const DIGITS := "0123456789"
  const UPPER := "ABCDEFGHIJKLMNOPQRSTUVWXYZ"
  const LOWER := "abcdefghijklmnopqrstuvwxyz"
  const ALPHABET := DIGITS + UPPER + LOWER

  type Byte = n: int | 0 <= n < 256

  /** The integer that big.Int.SetBytes reads from big-endian bytes. */
  function BigEndian(bytes: seq<Byte>): nat {
    if bytes == [] then 0 else 256 * BigEndian(bytes[..|bytes| - 1]) + bytes[|bytes| - 1]
  }

  /** The value of one digit, read off the character alone. */
  function DigitValue(c: char): int {
    if '0' <= c <= '9' then c as int - '0' as int
    else if 'A' <= c <= 'Z' then c as int - 'A' as int + 10
    else if 'a' <= c <= 'z' then c as int - 'a' as int + 36
    else -1
  }

  predicate IsNumeral(s: string) {
    |s| > 0 && forall c <- s :: DigitValue(c) >= 0
  }

  /** A base-62 numeral without a superfluous leading zero. */
  predicate Canonical(s: string) {
    IsNumeral(s) && (s[0] == '0' ==> |s| == 1)
  }

  /** Decoding: most significant digit first. */
  function Value(s: string): int {
    if s == "" then 0 else 62 * Value(s[..|s| - 1]) + DigitValue(s[|s| - 1])
  }

  function Pow62(k: nat): nat {
    if k == 0 then 1 else 62 * Pow62(k - 1)
  }

  lemma DigitsInOrder(d: nat)
    requires d < 10
    ensures DIGITS[d] == '0' + d as char
  {
  }

  lemma UpperInOrder(d: nat)
    requires d < 26
    ensures UPPER[d] == 'A' + d as char
  {
  }

  lemma LowerInOrder(d: nat)
    requires d < 26
    ensures LOWER[d] == 'a' + d as char
  {
  }

  lemma AlphabetDigit(d: nat)
    requires d < 62
    ensures |ALPHABET| == 62 && DigitValue(ALPHABET[d]) == d
    ensures d > 0 ==> ALPHABET[d] != '0'
  {
    if d < 10 {
      DigitsInOrder(d);
    } else if d < 36 {
      UpperInOrder(d - 10);
    } else {
      LowerInOrder(d - 36);
    }
  }

  /** Digits first, then capitals, then small letters, each in its order. */
  lemma DigitOrder(d: nat)
    requires d < 62
    ensures var c := if d < 10 then "0123456789"[d]
                     else if d < 36 then "ABCDEFGHIJKLMNOPQRSTUVWXYZ"[d - 10] else "abcdefghijklmnopqrstuvwxyz"[d - 36];
            DigitValue(c) == d && |ALPHABET| == 62 && ALPHABET[d] == c
  {
    AlphabetDigit(d);
  }

  lemma ShiftDigit(d: int, p: int, v: int)
    ensures 62 * (d * p + v) == d * (62 * p) + 62 * v
  {
  }

  lemma {:induction false} ValuePrepend(c: char, s: string)
    ensures Value([c] + s) == DigitValue(c) * Pow62(|s|) + Value(s)
  {
    if s == "" {
      assert [c] + s == [c];
      assert [c][..0] == "";
    } else {
      var t := s[..|s| - 1];
      assert ([c] + s)[..|s|] == [c] + t;
      ValuePrepend(c, t);
      ShiftDigit(DigitValue(c), Pow62(|t|), Value(t));
    }
  }

  /** Digit counts and magnitudes determine each other. */
  lemma {:induction false} CanonicalBounds(s: string)
    requires IsNumeral(s)
    ensures 0 <= Value(s) < Pow62(|s|)
    ensures s[0] != '0' ==> Pow62(|s| - 1) <= Value(s)
  {
    var t := s[..|s| - 1];
    if t != "" {
      CanonicalBounds(t);
    }
    DigitRange(s[|s| - 1]);
    DigitRange(s[0]);
  }

  lemma DigitRange(c: char)
    ensures DigitValue(c) < 62
    ensures DigitValue(c) == 0 <==> c == '0'
  {
  }

  /** Decoding is injective on digits. */
  lemma DigitInjective(c: char, d: char)
    requires DigitValue(c) == DigitValue(d) >= 0
    ensures c == d
  {
  }

  lemma Pow62Monotone(a: nat, b: nat)
    requires a <= b
    ensures 1 <= Pow62(a) <= Pow62(b)
  {
    if a < b { Pow62Monotone(a, b - 1); }
  }

  lemma LongerIsLarger(s: string, t: string)
    requires Canonical(s) && Canonical(t) && |s| < |t|
    ensures Value(s) < Value(t)
  {
    CanonicalBounds(s);
    CanonicalBounds(t);
    Pow62Monotone(|s|, |t| - 1);
  }

  /** A canonical numeral is determined by its value. */
  lemma CanonicalUnique(s: string, t: string)
    requires Canonical(s) && Canonical(t) && Value(s) == Value(t)
    ensures s == t
  {
    if |s| < |t| {
      LongerIsLarger(s, t);
    } else if |t| < |s| {
      LongerIsLarger(t, s);
    } else {
      SameLengthUnique(s, t);
    }
  }

  lemma {:induction false} SameLengthUnique(s: string, t: string)
    requires IsNumeral(s) && IsNumeral(t) && |s| == |t| && Value(s) == Value(t)
    ensures s == t
  {
    var s', t' := s[..|s| - 1], t[..|t| - 1];
    var c, d := s[|s| - 1], t[|t| - 1];
    DigitRange(c);
    DigitRange(d);
    assert DigitValue(c) >= 0 && DigitValue(d) >= 0;
    LastDigitUnique(Value(s'), DigitValue(c), Value(t'), DigitValue(d));
    DigitInjective(c, d);
    if s' != "" { SameLengthUnique(s', t'); }
    assert s == s' + [c] && t == t' + [d];
  }

  lemma LastDigitUnique(a: int, c: int, b: int, d: int)
    requires 62 * a + c == 62 * b + d && 0 <= c < 62 && 0 <= d < 62
    ensures a == b && c == d
  {
  }

  /** `base62Encode`: the unique canonical numeral of the bytes' value. */
  method Base62Encode(bytes: seq<Byte>) returns (encoded: string)
    ensures Canonical(encoded) && Value(encoded) == BigEndian(bytes)
  {
    var num := BigEndian(bytes);
    if num == 0 {
      encoded := [ALPHABET[0]];
      AlphabetDigit(0);
      assert encoded[..0] == "";
      return;
    }
    var sb := "";
    ghost var digits := "";   // sb read backwards
    assert Remaining(num, "", num);
    while num > 0
      invariant num >= 0
      invariant |digits| == |sb| && forall k :: 0 <= k < |sb| ==> digits[k] == sb[|sb| - 1 - k]
      invariant Remaining(num, digits, BigEndian(bytes))
      decreases num
    {
      hide Remaining;
      var mod := num % 62;
      NextDigit(num, digits, BigEndian(bytes));
      num := num / 62;
      sb := sb + [ALPHABET[mod]];
      digits := [ALPHABET[mod]] + digits;
    }
    var runes := new char[|sb|](k requires 0 <= k < |sb| => sb[k]);
    assert runes[..] == sb;
    ReverseRunes(runes);
    encoded := runes[..];
    assert encoded == digits;
  }

  /** The number still to write and the digits written make the whole value. */
  ghost predicate Remaining(num: nat, digits: string, total: nat) {
    && num * Pow62(|digits|) + Value(digits) == total
    && (forall c <- digits :: DigitValue(c) >= 0)
    && (num == 0 && total > 0 ==> digits != "" && digits[0] != '0')
  }

  lemma NextDigit(num: nat, digits: string, total: nat)
    requires num > 0 && Remaining(num, digits, total)
    ensures |ALPHABET| == 62 && Remaining(num / 62, [ALPHABET[num % 62]] + digits, total)
  {
    AlphabetDigit(num % 62);
    ValuePrepend(ALPHABET[num % 62], digits);
    SplitOff(num, Pow62(|digits|));
  }

  lemma SplitOff(num: nat, p: nat)
    ensures num * p == (num / 62) * (62 * p) + (num % 62) * p
  {
    assert num == 62 * (num / 62) + num % 62;
    assert num * p == (62 * (num / 62)) * p + (num % 62) * p;
  }

  /** The two-index swap loop. */
  method ReverseRunes(runes: array<char>)
    modifies runes
    ensures forall k :: 0 <= k < runes.Length ==> runes[k] == old(runes[runes.Length - 1 - k])
  {
    var i, j := 0, runes.Length - 1;
    while i < j
      invariant 0 <= i && i + j == runes.Length - 1 && i <= j + 1
      invariant forall k :: 0 <= k < i || j < k < runes.Length ==>
                  runes[k] == old(runes[runes.Length - 1 - k])
      invariant forall k :: i <= k <= j ==> runes[k] == old(runes[k])
    {
      runes[i], runes[j] := runes[j], runes[i];
      i, j := i + 1, j - 1;
    }
  }

  /** Leading zero bytes aside, the encoding can be decoded back to the bytes. */
  lemma {:induction false} BigEndianInjective(a: seq<Byte>, b: seq<Byte>)
    requires |a| == |b| && BigEndian(a) == BigEndian(b)
    ensures a == b
  {
    if a != [] {
      var a', b' := a[..|a| - 1], b[..|b| - 1];
      var x, y := a[|a| - 1], b[|b| - 1];
      assert BigEndian(a) == 256 * BigEndian(a') + x;
      assert BigEndian(b) == 256 * BigEndian(b') + y;
      assert x == y && BigEndian(a') == BigEndian(b');
      BigEndianInjective(a', b');
      assert a == a' + [x] && b == b' + [y];
    }
  }

  /** Encodings of byte strings of one length coincide exactly when the bytes do. */
  lemma EncodingInjective(a: seq<Byte>, s: string, b: seq<Byte>, t: string)
    requires |a| == |b|
    requires Canonical(s) && Value(s) == BigEndian(a)
    requires Canonical(t) && Value(t) == BigEndian(b)
    ensures s == t <==> a == b
  {
    if s == t { BigEndianInjective(a, b); }
    if a == b { CanonicalUnique(s, t); }
  }

  /** The first byte counts for the highest power of 256. */
  lemma {:induction false} FirstByteIsHighest(b: Byte, rest: seq<Byte>)
    ensures BigEndian([b] + rest) == b * Pow256(|rest|) + BigEndian(rest)
  {
    if rest == [] {
      assert [b] + rest == [b] && [b][..0] == [];
    } else {
      var front := rest[..|rest| - 1];
      assert ([b] + rest)[..|rest|] == [b] + front;
      FirstByteIsHighest(b, front);
      assert 256 * (b * Pow256(|front|)) == b * (256 * Pow256(|front|));
    }
  }

  lemma {:induction false} BigEndianBound(bytes: seq<Byte>)
    ensures BigEndian(bytes) < Pow256(|bytes|)
  {
    if bytes != [] { BigEndianBound(bytes[..|bytes| - 1]); }
  }

  function Pow256(k: nat): nat {
    if k == 0 then 1 else 256 * Pow256(k - 1)
  }

  /** A 16-byte UUID never needs more than 22 digits. */
  lemma UuidEncodingLength(bytes: seq<Byte>, s: string)
    requires |bytes| == 16 && Canonical(s) && Value(s) == BigEndian(bytes)
    ensures |s| <= 22
  {
    BigEndianBound(bytes);
    SixteenBytes();
    if |s| > 22 {
      CanonicalBounds(s);
      Pow62Monotone(22, |s| - 1);
    }
  }

  lemma SixteenBytes()
    ensures Pow256(16) <= Pow62(22)
  {
    assert Pow256(4) == 0x1_0000_0000;
    assert Pow256(8) == 0x1_0000_0000_0000_0000;
    assert Pow256(12) == 0x1_0000_0000_0000_0000_0000_0000;
    assert Pow256(16) == 0x1_0000_0000_0000_0000_0000_0000_0000_0000;
    assert Pow62(4) == 14776336;
    assert Pow62(8) == 218340105584896;
    assert Pow62(12) == 3226266762397899821056;
    assert Pow62(16) == 47672401706823533450263330816;
    assert Pow62(20) == 704423425546998022968330264616370176;
    assert Pow62(22) == 2707803647802660400290261537185326956544;
  }

  predicate LongEnough(uuid: seq<Byte>, length: int) {
    length <= 1 || BigEndian(uuid) >= Pow62(length - 1)
  }

  /** The leading digits of the uuid's numeral. */
  ghost predicate IsKey(key: string, uuid: seq<Byte>, length: nat) {
    exists e :: Canonical(e) && Value(e) == BigEndian(uuid) && length <= |e| && key == e[..length]
  }

  /** A negative length panics at the slice; `Drawing` is the loop still asking for uuids. */
  datatype ShortKey = Key(key: string) | Panicked | Drawing

  lemma LongEnoughIff(uuid: seq<Byte>, encoded: string, length: int)
    requires Canonical(encoded) && Value(encoded) == BigEndian(uuid)
    ensures LongEnough(uuid, length) <==> |encoded| >= length
  {
    CanonicalBounds(encoded);
    if length > 1 {
      if |encoded| < length { Pow62Monotone(|encoded|, length - 1); }
      else { Pow62Monotone(length - 1, |encoded| - 1); }
      Pow62Monotone(1, length - 1);
    }
  }

  /** `GenerateShortKey` over the uuids it draws: the first whose numeral has enough digits gives the key. */
  method GenerateShortKey(draws: seq<seq<Byte>>, length: int) returns (r: ShortKey)
    requires forall u <- draws :: |u| == 16
    ensures r.Drawing? <==> forall u <- draws :: !LongEnough(u, length)
    ensures r.Panicked? <==> draws != [] && length < 0
    ensures r.Key? ==> exists n: nat :: n < |draws| && LongEnough(draws[n], length) && IsKey(r.key, draws[n], length)
                                        && forall u <- draws[..n] :: !LongEnough(u, length)
    ensures length > 22 ==> r.Drawing?
  {
    for i := 0 to |draws|
      invariant forall u <- draws[..i] :: !LongEnough(u, length)
    {
      var encoded := Base62Encode(draws[i]);
      LongEnoughIff(draws[i], encoded, length);
      UuidEncodingLength(draws[i], encoded);
      if |encoded| >= length {
        if length < 0 { return Panicked; }
        return Key(encoded[..length]);
      }
    }
    assert draws[..|draws|] == draws;
    assert draws != [] ==> draws[0] in draws;
    return Drawing;
  }
}
