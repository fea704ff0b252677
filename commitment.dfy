/** The commit step of the game's fair-value protocol: the computer draws a
    value and a fresh key, shows HMAC-SHA256(key, decimal string of value),
    and after the user has answered reveals the value and the key so that
    the user can recompute the digest. HMAC-SHA256 itself is a parameter
    `mac`; the key is a parameter because it comes from the system's
    cryptographic random source. */
module Commitment {
  import opened Wrappers
  import opened Hex

  /** HMAC-SHA256 of a message (the UTF-8 bytes of a decimal string) under a key. */
  type Mac = (seq<byte>, string) -> seq<byte>

  predicate IsDecimalDigit(c: char) {
    '0' <= c <= '9'
  }

  function DigitChar(d: int): (c: char)
    requires 0 <= d < 10
    ensures IsDecimalDigit(c) && c as int - '0' as int == d
  {
    ('0' as int + d) as char
  }

  /** `value.ToString()` for a non-negative `int`: decimal digits without leading zeros. */
  function DecimalString(v: nat): (r: string)
    ensures 1 <= |r|
    ensures forall i :: 0 <= i < |r| ==> IsDecimalDigit(r[i])
    ensures r[0] == '0' ==> r == "0"
  {
    if v < 10 then [DigitChar(v)] else DecimalString(v / 10) + [DigitChar(v % 10)]
  }

  /** The value a string of decimal digits denotes. */
  function DecimalValue(s: string): nat
    requires forall i :: 0 <= i < |s| ==> IsDecimalDigit(s[i])
  {
    if |s| == 0 then 0
    else
      assert IsDecimalDigit(s[|s| - 1]);
      10 * DecimalValue(s[..|s| - 1]) + (s[|s| - 1] as int - '0' as int)
  }

  /** Reading the decimal string back gives the value that was written. */
  lemma {:induction false} DecimalRoundTrip(v: nat)
    ensures DecimalValue(DecimalString(v)) == v
  {
    var s := DecimalString(v);
    if v >= 10 {
      DecimalRoundTrip(v / 10);
      assert s[..|s| - 1] == DecimalString(v / 10);
    }
  }

  /** Distinct values are committed through distinct messages. */
  lemma DecimalStringInjective(v: nat, w: nat)
    requires DecimalString(v) == DecimalString(w)
    ensures v == w
  {
    DecimalRoundTrip(v);
    DecimalRoundTrip(w);
  }

  datatype Commitment = Commitment(value: nat, key: seq<byte>, digest: seq<byte>)

  /** True when `digest` is the HMAC of `value`'s decimal string under `key`:
      the check a person makes after the reveal. */
  predicate Opens(digest: seq<byte>, value: nat, key: seq<byte>, mac: Mac) {
    mac(key, DecimalString(value)) == digest
  }

  /** `ComputeHMAC(key, value.ToString())` paired with the value and key it hides. */
  function Commit(value: nat, key: seq<byte>, mac: Mac): (c: Commitment)
    ensures c.value == value && c.key == key
    ensures Opens(c.digest, value, key, mac)
  {
    Commitment(value, key, mac(key, DecimalString(value)))
  }

  /** The digest as printed before the user answers ("HMAC=..."). */
  function ShownDigest(c: Commitment): string
  {
    RemoveDashes(BitConverterString(c.digest))
  }

  /** The key as printed at the reveal ("KEY=..."). */
  function ShownKey(c: Commitment): string
  {
    RemoveDashes(BitConverterString(c.key))
  }

  /** A 32-byte key and a 32-byte SHA-256 digest are each shown as 64 hexadecimal
      characters, and reading the shown key back and recomputing the HMAC
      reproduces the shown digest exactly. */
  lemma {:induction false} RevealIsCheckable(value: nat, key: seq<byte>, mac: Mac)
    requires |key| == 32 && |mac(key, DecimalString(value))| == 32
    ensures |ShownKey(Commit(value, key, mac))| == 64
    ensures |ShownDigest(Commit(value, key, mac))| == 64
    ensures FromHex(ShownKey(Commit(value, key, mac))) == Some(key)
    ensures ToHex(mac(FromHex(ShownKey(Commit(value, key, mac))).value, DecimalString(value)))
            == ShownDigest(Commit(value, key, mac))
  {
    var c := Commit(value, key, mac);
    DashFreeRendering(c.key);
    DashFreeRendering(c.digest);
    FromHexToHex(c.key);
  }

  /** Binding: opening one digest to two different values, under any two
      keys, requires two different (key, message) pairs with the same HMAC,
      i.e. a collision. */
  lemma Binding(digest: seq<byte>, k: seq<byte>, k': seq<byte>, v: nat, w: nat, mac: Mac)
    requires Opens(digest, v, k, mac) && Opens(digest, w, k', mac)
    requires v != w
    ensures (k, DecimalString(v)) != (k', DecimalString(w))
    ensures mac(k, DecimalString(v)) == mac(k', DecimalString(w))
  {
    if DecimalString(v) == DecimalString(w) {
      DecimalStringInjective(v, w);
    }
  }
}
