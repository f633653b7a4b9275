/** The 12-byte document identifier used as a user id, with its hexadecimal
    text form: `Hex` writes lower-case digits, `FromHex` accepts exactly 24
    hexadecimal digits of either case. */
module ObjectIds {
  import opened Results
  import opened Text

  type Byte = b: int | 0 <= b < 256

  type ObjectId = s: seq<Byte> | |s| == 12 witness [0, 0, 0, 0, 0, 0, 0, 0, 0, 0, 0, 0]

  const HexDigits: string := "0123456789abcdef"

  /** The value of one hexadecimal digit, either case. */
  function DigitValue(c: char): (r: Option<nat>)
    ensures r.Some? ==> r.value < 16
  {
    if '0' <= c <= '9' then Some(c as int - '0' as int)
    else if 'a' <= c <= 'f' then Some(c as int - 'a' as int + 10)
    else if 'A' <= c <= 'F' then Some(c as int - 'A' as int + 10)
    else None
  }

  function EncodeBytes(bs: seq<Byte>): (r: string)
    ensures |r| == 2 * |bs|
  {
    if bs == [] then ""
    else [HexDigits[bs[0] / 16], HexDigits[bs[0] % 16]] + EncodeBytes(bs[1..])
  }

  /** Every character is a hexadecimal digit of either case. */
  predicate AllHexDigits(s: string)
  {
    forall i :: 0 <= i < |s| ==> DigitValue(s[i]).Some?
  }

  function DecodeBytes(s: string): (r: Option<seq<Byte>>)
    requires |s| % 2 == 0
    ensures r.Some? ==> 2 * |r.value| == |s|
    ensures r.Some? <==> AllHexDigits(s)
  {
    if s == [] then Some([])
    else
      match (DigitValue(s[0]), DigitValue(s[1]), DecodeBytes(s[2..]))
      case (Some(hi), Some(lo), Some(rest)) => Some([hi * 16 + lo] + rest)
      case _ => None
  }

  /** The `Hex()` text of an id: 24 lower-case hexadecimal digits. */
  function Hex(id: ObjectId): (r: string)
    ensures |r| == 24
    ensures forall i :: 0 <= i < |r| ==> r[i] in HexDigits
  {
    EncodeBytesDigits(id);
    EncodeBytes(id)
  }

  /** Parsing of an id's text form; None is the "invalid hex" error. */
  function FromHex(s: string): (r: Option<ObjectId>)
    ensures r.Some? <==> |s| == 24 && AllHexDigits(s)
  {
    if |s| != 24 then None
    else match DecodeBytes(s)
      case Some(bs) => Some(bs)
      case None => None
  }

  lemma {:induction false} EncodeBytesDigits(bs: seq<Byte>)
    ensures forall i :: 0 <= i < |EncodeBytes(bs)| ==> EncodeBytes(bs)[i] in HexDigits
  {
    if bs != [] {
      EncodeBytesDigits(bs[1..]);
      var r := EncodeBytes(bs);
      assert r == [HexDigits[bs[0] / 16], HexDigits[bs[0] % 16]] + EncodeBytes(bs[1..]);
      forall i | 0 <= i < |r| ensures r[i] in HexDigits {
        if i >= 2 {
          assert r[i] == EncodeBytes(bs[1..])[i - 2];
        }
      }
    }
  }

  lemma DigitRoundTrip(v: nat)
    requires v < 16
    ensures DigitValue(HexDigits[v]) == Some(v)
  {
  }

  lemma {:induction false} DecodeEncode(bs: seq<Byte>)
    ensures DecodeBytes(EncodeBytes(bs)) == Some(bs)
  {
    if bs != [] {
      var b := bs[0];
      DigitRoundTrip(b / 16);
      DigitRoundTrip(b % 16);
      EncodeHead(bs, b / 16, b % 16);
      var e := EncodeBytes(bs);
      assert e[2..] == EncodeBytes(bs[1..]);
      DecodeEncode(bs[1..]);
      assert b / 16 * 16 + b % 16 == b;
      assert [b] + bs[1..] == bs;
    }
  }

  lemma DigitLower(c: char, v: nat)
    requires DigitValue(c) == Some(v)
    ensures HexDigits[v] == LowerChar(c)
  {
  }

  lemma {:induction false} EncodeDecode(s: string, bs: seq<Byte>)
    requires |s| % 2 == 0
    requires DecodeBytes(s) == Some(bs)
    ensures EncodeBytes(bs) == LowerString(s)
  {
    if s != [] {
      DecodeHead(s, bs);
      EncodeDecode(s[2..], bs[1..]);
      var hi, lo := DigitValue(s[0]).value, DigitValue(s[1]).value;
      DigitLower(s[0], hi);
      DigitLower(s[1], lo);
      ByteSplit(hi, lo);
      EncodeHead(bs, hi, lo);
      LowerStringPair(s);
    }
  }

  lemma EncodeHead(bs: seq<Byte>, hi: nat, lo: nat)
    requires bs != [] && hi < 16 && lo < 16 && bs[0] / 16 == hi && bs[0] % 16 == lo
    ensures EncodeBytes(bs) == [HexDigits[hi], HexDigits[lo]] + EncodeBytes(bs[1..])
  {
  }

  /** The first byte decoded is the value of the first two digits, and the
      rest decodes to the remaining bytes. */
  lemma DecodeHead(s: string, bs: seq<Byte>)
    requires |s| % 2 == 0 && s != []
    requires DecodeBytes(s) == Some(bs)
    ensures DigitValue(s[0]).Some? && DigitValue(s[1]).Some?
    ensures bs != [] && bs[0] == DigitValue(s[0]).value * 16 + DigitValue(s[1]).value
    ensures DecodeBytes(s[2..]) == Some(bs[1..])
  {
  }

  lemma ByteSplit(hi: nat, lo: nat)
    requires hi < 16 && lo < 16
    ensures (hi * 16 + lo) / 16 == hi && (hi * 16 + lo) % 16 == lo
  {
  }

  lemma LowerStringPair(s: string)
    requires |s| >= 2
    ensures LowerString(s) == [LowerChar(s[0]), LowerChar(s[1])] + LowerString(s[2..])
  {
  }

  /** Every id survives a trip through its text form. */
  lemma HexRoundTrip(id: ObjectId)
    ensures FromHex(Hex(id)) == Some(id)
  {
    DecodeEncode(id);
  }

  /** Text accepted as an id is exactly the lower-cased `Hex()` of that id. */
  lemma FromHexCanonical(s: string, id: ObjectId)
    requires FromHex(s) == Some(id)
    ensures Hex(id) == LowerString(s)
  {
    EncodeDecode(s, id);
  }
}
