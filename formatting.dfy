/**
 * The text the indexer writes into the key columns: the nonce as `0x` and 64
 * zero-padded lowercase hexadecimal digits, and hashes and addresses in their
 * debug form, `0x` and two lowercase hexadecimal digits per byte.
 */
module Formatting {
  import opened Wrappers
  import opened Digits
  import opened Events

  predicate IsLowerHexDigit(c: char) {
    '0' <= c <= '9' || 'a' <= c <= 'f'
  }

  predicate AllLowerHex(s: string) {
    forall i :: 0 <= i < |s| ==> IsLowerHexDigit(s[i])
  }

  /** The value of one lowercase hexadecimal digit. */
  function HexValue(c: char): (d: nat)
    requires IsLowerHexDigit(c)
    ensures d < 16
  {
    if c <= '9' then c as int - '0' as int else c as int - 'a' as int + 10
  }

  /** The lowercase hexadecimal digit of `d`; `HexValue` reads it back. */
  function HexChar(d: nat): (c: char)
    requires d < 16
    ensures IsLowerHexDigit(c) && HexValue(c) == d
  {
    if d < 10 then ('0' as int + d) as char else ('a' as int + d - 10) as char
  }

  function HexString(ds: seq<nat>): (s: string)
    requires AllBelow(ds, 16)
    ensures |s| == |ds| && AllLowerHex(s)
  {
    seq(|ds|, i requires 0 <= i < |ds| => HexChar(ds[i]))
  }

  function HexValues(s: string): (ds: seq<nat>)
    requires AllLowerHex(s)
    ensures |ds| == |s| && AllBelow(ds, 16)
  {
    seq(|s|, i requires 0 <= i < |s| => HexValue(s[i]))
  }

  /** The number a string of lowercase hexadecimal digits denotes. */
  function ParseHex(s: string): (n: nat)
    requires AllLowerHex(s)
    ensures n < Pow(16, |s|)
  {
    FromDigits(HexValues(s), 16)
  }

  /**
   * Rust's `{:0width$x}` for a value below 16^width: exactly `width`
   * lowercase digits, zero-padded on the left.
   */
  function LowerHex(n: nat, width: nat): (s: string)
    ensures |s| == width && AllLowerHex(s)
  {
    if width == 0 then "" else LowerHex(n / 16, width - 1) + [HexChar(n % 16)]
  }

  /** The text is the digit string of `n`, one character per digit. */
  lemma {:induction false} LowerHexDigits(n: nat, width: nat)
    ensures LowerHex(n, width) == HexString(ToDigits(n, 16, width))
  {
    if width > 0 {
      var ds := ToDigits(n / 16, 16, width - 1);
      LowerHexDigits(n / 16, width - 1);
      assert HexString(ds + [n % 16]) == HexString(ds) + [HexChar(n % 16)];
    }
  }

  /** The fixed-width text reads back as the value it was written from. */
  lemma {:induction false} ParseLowerHex(n: nat, width: nat)
    requires n < Pow(16, width)
    ensures ParseHex(LowerHex(n, width)) == n
  {
    var ds := ToDigits(n, 16, width);
    LowerHexDigits(n, width);
    assert HexValues(HexString(ds)) == ds;
    FromDigitsToDigits(n, 16, width);
  }

  lemma LowerHexInjective(m: nat, n: nat, width: nat)
    requires m < Pow(16, width) && n < Pow(16, width)
    ensures LowerHex(m, width) == LowerHex(n, width) <==> m == n
  {
    ParseLowerHex(m, width);
    ParseLowerHex(n, width);
  }

  /** 64 hexadecimal digits hold exactly the `uint256` values. */
  lemma NonceWidth()
    ensures Pow(16, 64) == TWO_256
  {
    HexPerByte(32);
    WordBound();
  }

  /** `format!("0x{:064x}", nonce)`: the text of the nonce key column. */
  function NonceText(nonce: U256): (s: string)
    ensures |s| == 66 && s[..2] == "0x" && AllLowerHex(s[2..])
  {
    "0x" + LowerHex(nonce, 64)
  }

  /** Reads a nonce key column back; `None` for text of any other shape. */
  function ParseNonceText(s: string): (r: Option<nat>)
  {
    if |s| == 66 && s[..2] == "0x" && AllLowerHex(s[2..]) then Some(ParseHex(s[2..])) else None
  }

  /** Parsing the nonce text yields the nonce. */
  lemma ParseNonceTextOfNonceText(nonce: U256)
    ensures ParseNonceText(NonceText(nonce)) == Some(nonce)
  {
    var s := NonceText(nonce);
    assert s[2..] == LowerHex(nonce, 64);
    NonceWidth();
    ParseLowerHex(nonce, 64);
  }

  /** Every text that parses as a nonce is the text of that nonce. */
  lemma NonceTextOfParseNonceText(s: string)
    requires ParseNonceText(s).Some?
    ensures ParseNonceText(s).value < TWO_256
    ensures NonceText(ParseNonceText(s).value) == s
  {
    var t := s[2..];
    var n := ParseHex(t);
    NonceWidth();
    var ds := HexValues(t);
    ToDigitsFromDigits(ds, 16);
    LowerHexDigits(n, 64);
    assert HexString(ds) == t;
    assert s == s[..2] + t;
  }

  /** Distinct nonces get distinct key texts. */
  lemma NonceTextInjective(a: U256, b: U256)
    ensures NonceText(a) == NonceText(b) <==> a == b
  {
    ParseNonceTextOfNonceText(a);
    ParseNonceTextOfNonceText(b);
  }

  /** `format!("{:?}", h)` for an `H256` or an `Address`. */
  function DebugHex(bytes: seq<uint8>): (s: string)
    ensures |s| == 2 + 2 * |bytes| && s[..2] == "0x" && AllLowerHex(s[2..])
  {
    "0x" + LowerHex(BigEndian(bytes), 2 * |bytes|)
  }

  /** Byte strings of one width have the same debug text only when equal. */
  lemma DebugHexInjective(a: seq<uint8>, b: seq<uint8>)
    requires |a| == |b|
    ensures DebugHex(a) == DebugHex(b) <==> a == b
  {
    if DebugHex(a) == DebugHex(b) {
      var w := 2 * |a|;
      HexPerByte(|a|);
      assert LowerHex(BigEndian(a), w) == DebugHex(a)[2..];
      assert LowerHex(BigEndian(b), w) == DebugHex(b)[2..];
      LowerHexInjective(BigEndian(a), BigEndian(b), w);
      BigEndianInjective(a, b);
    }
  }
}
