/** Byte strings as numbers, the nonces of proof requests, and the encoding of credential values. */
module Encoding {
  import opened Decimal
  import opened Wrappers

  newtype Byte = b: int | 0 <= b < 256

  // ---- Bytes as a number ----

  /** The big-endian base-256 value: each byte times the weight of its place. */
  function ValueOf(bytes: seq<Byte>): nat {
    if bytes == [] then 0 else bytes[0] as nat * Power(256, |bytes| - 1) + ValueOf(bytes[1..])
  }

  /** Bitwise or. */
  function BitOr(a: nat, b: nat): nat
    decreases a + b
  {
    if a == 0 then b
    else if b == 0 then a
    else 2 * BitOr(a / 2, b / 2) + (if a % 2 == 1 || b % 2 == 1 then 1 else 0)
  }

  /** Or-ing bits into the zeros of a shifted number adds them. */
  lemma {:induction false} OrFillsShiftedZeros(a: nat, b: nat, k: nat)
    requires b < Power(2, k)
    ensures BitOr(a * Power(2, k), b) == a * Power(2, k) + b
    decreases k
  {
    if k > 0 && a > 0 && b > 0 {
      var p := Power(2, k - 1);
      assert Power(2, k) == 2 * p;
      assert a * Power(2, k) == 2 * (a * p) by { assert a * (2 * p) == 2 * (a * p); }
      OrFillsShiftedZeros(a, b / 2, k - 1);
      assert a * p > 0;
    }
  }

  lemma OrByte(a: nat, b: nat)
    requires b < 256
    ensures BitOr(a * 256, b) == a * 256 + b
  {
    assert Power(2, 8) == 256 by {
      assert Power(2, 4) == 16;
      assert Power(2, 8) == 16 * Power(2, 4);
    }
    OrFillsShiftedZeros(a, b, 8);
  }

  lemma {:induction false} ValueOfAppend(bytes: seq<Byte>, last: Byte)
    ensures ValueOf(bytes + [last]) == ValueOf(bytes) * 256 + last as nat
  {
    var all := bytes + [last];
    if bytes == [] {
      assert all[1..] == [];
    } else {
      assert all[1..] == bytes[1..] + [last];
      ValueOfAppend(bytes[1..], last);
      var p := Power(256, |bytes| - 1);
      assert Power(256, |bytes|) == 256 * p;
      assert bytes[0] as nat * (256 * p) == bytes[0] as nat * p * 256;
    }
  }

  lemma {:induction false} ValueBound(bytes: seq<Byte>)
    ensures ValueOf(bytes) < Power(256, |bytes|)
  {
    if bytes != [] {
      var n := |bytes| - 1;
      assert bytes == bytes[..n] + [bytes[n]];
      ValueOfAppend(bytes[..n], bytes[n]);
      ValueBound(bytes[..n]);
    }
  }

  /** Byte strings of one length have different values. */
  lemma {:induction false} ValueIsInjective(a: seq<Byte>, b: seq<Byte>)
    requires |a| == |b| && ValueOf(a) == ValueOf(b)
    ensures a == b
  {
    if a != [] {
      var n := |a| - 1;
      assert a == a[..n] + [a[n]] && b == b[..n] + [b[n]];
      ValueOfAppend(a[..n], a[n]);
      ValueOfAppend(b[..n], b[n]);
      ValueIsInjective(a[..n], b[..n]);
    }
  }

  /** The fold over the bytes, starting from zero. */
  method Fold(bytes: seq<Byte>) returns (value: nat)
    ensures value == ValueOf(bytes)
  {
    value := 0;
    for i := 0 to |bytes|
      invariant value == ValueOf(bytes[..i])
    {
      OrByte(value, bytes[i] as nat);
      ValueOfAppend(bytes[..i], bytes[i]);
      assert bytes[..i + 1] == bytes[..i] + [bytes[i]];
      value := BitOr(value * 256, bytes[i] as nat);
    }
    assert bytes[..|bytes|] == bytes;
  }

  method BytesToBigint(bytes: seq<Byte>) returns (r: Option<nat>)
    ensures r == if bytes == [] then None else Some(ValueOf(bytes))
  {
    if |bytes| == 0 { return None; }
    var value := Fold(bytes);
    r := Some(value);
  }

  // ---- Nonces ----

  const EIGHTY_BITS: nat := 0x1_00000_00000_00000_00000

  lemma TenBytesAreEightyBits()
    ensures Power(256, 10) == EIGHTY_BITS && Power(10, 20) < EIGHTY_BITS
  {
    assert Power(256, 5) == 0x100_00000_000;
    assert Power(256, 10) == 0x100_00000_000 * Power(256, 5) by { SplitPower(256, 5, 5); }
    assert Power(10, 5) == 100000;
    SplitPower(10, 5, 5);
    SplitPower(10, 10, 10);
  }

  lemma {:induction false} SplitPower(b: nat, m: nat, n: nat)
    ensures Power(b, m + n) == Power(b, m) * Power(b, n)
  {
    if m > 0 {
      SplitPower(b, m - 1, n);
      ProductRegroups(b, Power(b, m - 1), Power(b, n));
    }
  }

  lemma ProductRegroups(x: nat, y: nat, z: nat)
    ensures x * (y * z) == x * y * z
  {
  }

  /** The nonce drawn by a holder: ten random bytes as a number. */
  method GenerateNonce(random: seq<Byte>) returns (nonce: string)
    requires |random| == 10
    ensures AllDigits(nonce) && Parse(nonce) == ValueOf(random) < EIGHTY_BITS
  {
    var value := Fold(random);
    nonce := Print(value);
    ParseAfterPrint(value);
    ValueBound(random);
    TenBytesAreEightyBits();
  }

  /** Different random bytes give different nonces. */
  lemma NoncesDiffer(a: seq<Byte>, b: seq<Byte>)
    requires |a| == |b| == 10 && Print(ValueOf(a)) == Print(ValueOf(b))
    ensures a == b
  {
    ParseAfterPrint(ValueOf(a));
    ParseAfterPrint(ValueOf(b));
    ValueIsInjective(a, b);
  }

  /** The nonce derived from the hash of a challenge: at most its first twenty digits. */
  method NonceOfChallenge(hash: seq<Byte>) returns (nonce: Option<string>)
    ensures nonce.None? <==> hash == []
    ensures nonce.Some? ==> nonce.value != "" && AllDigits(nonce.value) && Parse(nonce.value) < EIGHTY_BITS
    ensures nonce.Some? ==> nonce.value <= Print(ValueOf(hash))
    ensures nonce.Some? && |nonce.value| < 20 ==> Parse(nonce.value) == ValueOf(hash)
  {
    var value := BytesToBigint(hash);
    if value.None? { return None; }
    var digits := Print(value.value);
    ParseAfterPrint(value.value);
    var prefix := if |digits| > 20 then digits[..20] else digits;
    ParseBound(prefix);
    PowerIsMonotonic(10, |prefix|, 20);
    TenBytesAreEightyBits();
    nonce := Some(prefix);
  }

  lemma {:induction false} PowerIsMonotonic(b: nat, m: nat, n: nat)
    requires b > 0 && m <= n
    ensures 0 < Power(b, m) <= Power(b, n)
    decreases n
  {
    if m < n {
      PowerIsMonotonic(b, m, n - 1);
      assert Power(b, n - 1) * 1 <= Power(b, n - 1) * b;
    } else if m > 0 {
      PowerIsMonotonic(b, m - 1, m - 1);
      assert b * Power(b, m - 1) >= 1;
    }
  }

  // ---- Credential values ----

  predicate IsInt32(n: int) {
    -2147483648 <= n <= 2147483647
  }

  type Int32 = n: int | IsInt32(n)

  /** A raw value; other numbers and objects are known by the string they convert to. */
  datatype Raw = Text(text: string) | Flag(flag: bool) | Int(number: Int32) | Other(text: string) | Nothing

  /** A hash whose results have 32 bytes. */
  type Hash = f: string -> seq<Byte> | forall s :: |f(s)| == 32
    ghost witness (s: string) => seq(32, i => 0 as Byte)

  predicate IsInt32Text(s: string) {
    IsNumeric(s) && IsInt32(ParseInt(s))
  }

  /** The integer a raw value stands for, if any. */
  function IntegerOf(raw: Raw): Option<int> {
    match raw
    case Flag(b) => Some(if b then 1 else 0)
    case Int(n) => Some(n)
    case Text(s) => if IsInt32Text(s) then Some(ParseInt(s)) else None
    case _ => None
  }

  /** What is hashed for a value that stands for no integer. */
  function HashedText(raw: Raw): string {
    match raw
    case Text(s) => s
    case Other(s) => s
    case _ => "None"
  }

  /** The number a raw value is encoded as. */
  function EncodedNumber(hash: Hash, raw: Raw): int {
    if IntegerOf(raw).Some? then IntegerOf(raw).value else ValueOf(hash(HashedText(raw)))
  }

  method EncodeCredentialValue(hash: Hash, raw: Raw) returns (encoded: string)
    ensures encoded == PrintInt(EncodedNumber(hash, raw))
  {
    if raw.Flag? {
      return Print(if raw.flag then 1 else 0);
    }
    if raw.Int? {
      return PrintInt(raw.number);
    }
    if raw.Text? && raw.text != "" && IsNumeric(raw.text) && IsInt32(ParseInt(raw.text)) {
      return PrintInt(ParseInt(raw.text));
    }
    var value := raw;
    if value.Nothing? { value := Text("None"); }
    var number := BytesToBigint(hash(value.text));
    encoded := Print(number.value);
  }

  /** What Aries RFC 0036 asks for: true is 1 and false 0; an int32, or a string that spells one, is itself; anything else
      is the number of its hash, nothing at all being hashed as "None". */
  lemma EncodedAsSpecified(hash: Hash, raw: Raw)
    ensures EncodedNumber(hash, Flag(true)) == 1 && EncodedNumber(hash, Flag(false)) == 0
    ensures raw.Int? ==> EncodedNumber(hash, raw) == raw.number
    ensures raw.Text? ==>
      var spellsInt32 := IsNumeric(raw.text) && -0x8000_0000 <= ParseInt(raw.text) <= 0x7fff_ffff;
      EncodedNumber(hash, raw) == if spellsInt32 then ParseInt(raw.text) else ValueOf(hash(raw.text))
    ensures raw.Other? ==> EncodedNumber(hash, raw) == ValueOf(hash(raw.text))
    ensures EncodedNumber(hash, Nothing) == ValueOf(hash("None"))
  {
  }

  /** Encoding the encoding of an integer changes nothing. */
  lemma EncodingIsIdempotentOnIntegers(hash: Hash, raw: Raw)
    requires IntegerOf(raw).Some?
    ensures EncodedNumber(hash, Text(PrintInt(EncodedNumber(hash, raw)))) == EncodedNumber(hash, raw)
  {
    ParseIntAfterPrintInt(EncodedNumber(hash, raw));
  }

  /** Encodings agree exactly when both values stand for the same integer, or neither for any and their hashes are
      equal, or one stands for the number that the hash of the other happens to be. */
  lemma EncodingsAgreeExactlyWhen(hash: Hash, a: Raw, b: Raw)
    ensures PrintInt(EncodedNumber(hash, a)) == PrintInt(EncodedNumber(hash, b)) <==>
      if IntegerOf(a).Some? && IntegerOf(b).Some? then IntegerOf(a) == IntegerOf(b)
      else if IntegerOf(a).None? && IntegerOf(b).None? then hash(HashedText(a)) == hash(HashedText(b))
      else if IntegerOf(a).Some? then IntegerOf(a).value == ValueOf(hash(HashedText(b)))
      else IntegerOf(b).value == ValueOf(hash(HashedText(a)))
  {
    ParseIntAfterPrintInt(EncodedNumber(hash, a));
    ParseIntAfterPrintInt(EncodedNumber(hash, b));
    var x, y := hash(HashedText(a)), hash(HashedText(b));
    if ValueOf(x) == ValueOf(y) { ValueIsInjective(x, y); }
  }

  /** An encoding reads as the int32 it is exactly when the value stands for one, or its hash is a number of 31 bits. */
  lemma EncodingReadsAsInt32ExactlyWhen(hash: Hash, raw: Raw)
    ensures IntegerOf(Text(PrintInt(EncodedNumber(hash, raw)))) == Some(EncodedNumber(hash, raw)) <==>
            IntegerOf(raw).Some? || ValueOf(hash(HashedText(raw))) <= 2147483647
  {
    ParseIntAfterPrintInt(EncodedNumber(hash, raw));
  }

  /** Leading zeros and the sign of zero are lost: a numeral after another zero, or after a minus, encodes the same
      number, or its negation. */
  lemma SpellingsOfAnInteger(hash: Hash, digits: string)
    requires digits != "" && AllDigits(digits) && Parse(digits) <= 2147483647
    ensures EncodedNumber(hash, Text("0" + digits)) == EncodedNumber(hash, Text(digits)) == Parse(digits)
    ensures EncodedNumber(hash, Text("-" + digits)) == -EncodedNumber(hash, Text(digits))
  {
    LeadingZero(digits);
    assert ("-" + digits)[1..] == digits && IsDigit(digits[0]);
  }

  lemma {:induction false} LeadingZero(digits: string)
    requires AllDigits(digits)
    ensures AllDigits("0" + digits) && Parse("0" + digits) == Parse(digits)
  {
    var longer := "0" + digits;
    if digits == "" {
      assert longer[..|longer| - 1] == "" && longer[|longer| - 1] == '0';
    } else {
      assert longer[..|longer| - 1] == "0" + digits[..|digits| - 1];
      LeadingZero(digits[..|digits| - 1]);
    }
  }
}
