/** Upper-case hexadecimal rendering of byte arrays, as the game shows its
    secret keys and HMAC digests: `BitConverter.ToString(bytes)` gives
    "4F-A0-..." and `.Replace("-", "")` drops the separators. */
module Hex {
  import opened Wrappers

  newtype byte = x: int | 0 <= x < 256

  /** The sixteen digits BitConverter writes, in value order. */
  const Digits: string := "0123456789ABCDEF"

  /** The value of one upper-case hexadecimal digit, or None for any other character. */
  function DigitValue(c: char): (r: Option<int>)
    ensures r.Some? ==> 0 <= r.value < 16 && Digits[r.value] == c
    ensures r.None? ==> c !in Digits
  {
    if '0' <= c <= '9' then Some(c as int - '0' as int)
    else if 'A' <= c <= 'F' then Some(c as int - 'A' as int + 10)
    else None
  }

  /** The two digits of one byte, high nibble first. */
  function Pair(b: byte): (r: string)
    ensures |r| == 2
    ensures DigitValue(r[0]) == Some(b as int / 16) && DigitValue(r[1]) == Some(b as int % 16)
  {
    [Digits[b as int / 16], Digits[b as int % 16]]
  }

  /** `BitConverter.ToString`: each byte as two digits, separated by '-'. */
  function BitConverterString(bs: seq<byte>): (r: string)
    ensures |bs| > 0 ==> |r| == 3 * |bs| - 1
    ensures |bs| == 0 ==> r == ""
  {
    if |bs| == 0 then ""
    else if |bs| == 1 then Pair(bs[0])
    else Pair(bs[0]) + "-" + BitConverterString(bs[1..])
  }

  /** `s.Replace("-", "")`. */
  function RemoveDashes(s: string): (r: string)
    ensures '-' !in r
    ensures |r| <= |s|
  {
    if |s| == 0 then ""
    else if s[0] == '-' then RemoveDashes(s[1..])
    else [s[0]] + RemoveDashes(s[1..])
  }

  /** The dash-free rendering: two upper-case digits per byte. */
  function ToHex(bs: seq<byte>): (r: string)
    ensures |r| == 2 * |bs|
    ensures forall i :: 0 <= i < |r| ==> r[i] in Digits
  {
    if |bs| == 0 then "" else Pair(bs[0]) + ToHex(bs[1..])
  }

  /** Reads an upper-case hexadecimal string back into bytes, the check a
      person performs when comparing a revealed key or digest. */
  function FromHex(s: string): (r: Option<seq<byte>>)
    ensures r.Some? ==> 2 * |r.value| == |s|
  {
    if |s| == 0 then Some([])
    else if |s| == 1 then None
    else
      match (DigitValue(s[0]), DigitValue(s[1]), FromHex(s[2..]))
      case (Some(hi), Some(lo), Some(rest)) => Some([(hi * 16 + lo) as byte] + rest)
      case _ => None
  }

  lemma {:induction false} RemoveDashesAppend(s: string, t: string)
    ensures RemoveDashes(s + t) == RemoveDashes(s) + RemoveDashes(t)
  {
    if |s| == 0 {
      assert s + t == t;
    } else {
      assert (s + t)[1..] == s[1..] + t;
      RemoveDashesAppend(s[1..], t);
    }
  }

  /** `BitConverter.ToString(bs).Replace("-", "")` is exactly the two-digit-per-byte rendering. */
  lemma {:induction false} DashFreeRendering(bs: seq<byte>)
    ensures RemoveDashes(BitConverterString(bs)) == ToHex(bs)
  {
    var p := if |bs| == 0 then "" else Pair(bs[0]);
    assert |bs| > 0 ==> RemoveDashes(p) == p by {
      if |bs| > 0 {
        assert p[1..][1..] == "";
      }
    }
    if |bs| == 0 {
    } else if |bs| == 1 {
      assert ToHex(bs) == p + ToHex([]);
    } else {
      RemoveDashesAppend(p + "-", BitConverterString(bs[1..]));
      RemoveDashesAppend(p, "-");
      DashFreeRendering(bs[1..]);
    }
  }

  /** Reading one rendered byte in front of a string. */
  lemma ReadPair(b: byte, t: string, rest: seq<byte>)
    requires FromHex(t) == Some(rest)
    ensures FromHex(Pair(b) + t) == Some([b] + rest)
  {
    var s := Pair(b) + t;
    assert s[0] == Pair(b)[0] && s[1] == Pair(b)[1] && s[2..] == t;
    var hi, lo := b as int / 16, b as int % 16;
    assert (hi * 16 + lo) as byte == b;
  }

  /** Reading back a rendering gives the bytes that were rendered. */
  lemma {:induction false} FromHexToHex(bs: seq<byte>)
    ensures FromHex(ToHex(bs)) == Some(bs)
  {
    if |bs| > 0 {
      FromHexToHex(bs[1..]);
      ReadPair(bs[0], ToHex(bs[1..]), bs[1..]);
      assert [bs[0]] + bs[1..] == bs;
    }
  }

  /** A string that reads as `bs` is the rendering of `bs`: no two strings
      are accepted for the same bytes. */
  lemma {:induction false} ToHexFromHex(s: string, bs: seq<byte>)
    requires FromHex(s) == Some(bs)
    ensures ToHex(bs) == s
  {
    if |s| > 0 {
      var hi, lo, rest := DigitValue(s[0]), DigitValue(s[1]), FromHex(s[2..]);
      assert hi.Some? && lo.Some? && rest.Some?;
      assert bs == [(hi.value * 16 + lo.value) as byte] + rest.value;
      ToHexFromHex(s[2..], rest.value);
      var b := bs[0] as int;
      assert b / 16 == hi.value && b % 16 == lo.value by {
        assert b == hi.value * 16 + lo.value;
      }
      assert Pair(bs[0]) == s[..2];
      assert bs[1..] == rest.value;
      assert s == s[..2] + s[2..];
    }
  }
}
