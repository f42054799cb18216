/** The version string of a list of operations (src/utils/hashOperations.ts):
    the SHA-1 digest of its JSON text, rendered byte by byte as lowercase hex.
    JSON serialisation, UTF-8 encoding and the digest are foreign calls and
    enter the model as function values. */
module HashOperations {
  import opened Wrappers
  import opened Operations

  type byte = b: int | 0 <= b < 256

  /** Digit `n` of base 16 as `toString(16)` writes it: 0-9 then a-f. */
  function HexDigit(n: nat): (c: char)
    requires n < 16
    ensures IsLowerHex(c)
  {
    if n < 10 then ('0' as int + n) as char else ('a' as int + n - 10) as char
  }

  predicate IsLowerHex(c: char) {
    '0' <= c <= '9' || 'a' <= c <= 'f'
  }

  /** `Number.prototype.toString(16)` on a non-negative integer: most
      significant digit first, no leading zeros. */
  function ToBase16(n: nat): (r: string)
    ensures 1 <= |r|
    decreases n
  {
    if n < 16 then [HexDigit(n)] else ToBase16(n / 16) + [HexDigit(n % 16)]
  }

  /** `String.prototype.padStart(len, c)`. */
  function PadStart(s: string, len: nat, c: char): (r: string)
    ensures |r| == if |s| >= len then |s| else len
  {
    if |s| >= len then s else seq(len - |s|, _ => c) + s
  }

  /** One digit exactly below 16, and only hex digits. */
  lemma {:induction false} ToBase16Digits(n: nat)
    ensures |ToBase16(n)| == 1 <==> n < 16
    ensures forall k :: 0 <= k < |ToBase16(n)| ==> IsLowerHex(ToBase16(n)[k])
    decreases n
  {
    if n >= 16 {
      ToBase16Digits(n / 16);
      var r := ToBase16(n);
      forall k | 0 <= k < |r| ensures IsLowerHex(r[k]) {
        if k < |r| - 1 {
          assert r[k] == ToBase16(n / 16)[k];
        }
      }
    }
  }

  /** Padding only prepends the fill character and keeps the string as its tail. */
  lemma PadStartKeepsTail(s: string, len: nat, c: char)
    ensures var r := PadStart(s, len, c);
      r[|r| - |s|..] == s && forall k :: 0 <= k < |r| - |s| ==> r[k] == c
  {
  }

  /** `b.toString(16).padStart(2, '0')`: always two characters, the high
      nibble first, so bytes below 16 get a leading zero. */
  function ByteToHex(b: byte): (r: string)
    ensures r == [HexDigit(b / 16), HexDigit(b % 16)]
  {
    var s := ToBase16(b);
    if b < 16 then
      assert s == [HexDigit(b)];
      assert PadStart(s, 2, '0') == ['0'] + s;
      PadStart(s, 2, '0')
    else
      assert s == ToBase16(b / 16) + [HexDigit(b % 16)];
      assert ToBase16(b / 16) == [HexDigit(b / 16)];
      PadStart(s, 2, '0')
  }

  /** `map(ByteToHex).join('')`. */
  function Hex(bs: seq<byte>): (r: string)
    ensures |r| == 2 * |bs|
    ensures forall i :: 0 <= i < |bs| ==>
      r[2 * i] == HexDigit(bs[i] / 16) && r[2 * i + 1] == HexDigit(bs[i] % 16)
  {
    if bs == [] then "" else ByteToHex(bs[0]) + Hex(bs[1..])
  }

  lemma HexIsLowercase(bs: seq<byte>)
    ensures forall k :: 0 <= k < |Hex(bs)| ==> IsLowerHex(Hex(bs)[k])
  {
    var r := Hex(bs);
    forall k | 0 <= k < |r|
      ensures IsLowerHex(r[k])
    {
      var i := k / 2;
      var b := bs[i];
      if k == 2 * i {
        assert r[k] == HexDigit(b / 16);
      } else {
        assert r[k] == HexDigit(b % 16);
      }
    }
  }

  /** The value of a lowercase hex digit; `None` for any other character. */
  function NibbleValue(c: char): (r: Option<nat>)
    ensures r.Some? ==> r.value < 16 && HexDigit(r.value) == c
    ensures IsLowerHex(c) ==> r.Some?
  {
    if '0' <= c <= '9' then Some(c as int - '0' as int)
    else if 'a' <= c <= 'f' then Some(c as int - 'a' as int + 10)
    else None
  }

  lemma NibbleOfDigit(n: nat)
    requires n < 16
    ensures NibbleValue(HexDigit(n)) == Some(n)
  {
  }

  /** Reads a string of lowercase hex pairs back into bytes. */
  function HexDecode(s: string): (r: Option<seq<byte>>)
    decreases |s|
  {
    if s == [] then Some([])
    else if |s| == 1 then None
    else
      match (NibbleValue(s[0]), NibbleValue(s[1]), HexDecode(s[2..]))
      case (Some(hi), Some(lo), Some(rest)) => Some([hi * 16 + lo] + rest)
      case _ => None
  }

  lemma {:induction false} HexRoundTrip(bs: seq<byte>)
    ensures HexDecode(Hex(bs)) == Some(bs)
  {
    if bs != [] {
      var s := Hex(bs);
      var b := bs[0];
      assert s == ByteToHex(b) + Hex(bs[1..]);
      assert s[2..] == Hex(bs[1..]);
      NibbleOfDigit(b / 16);
      NibbleOfDigit(b % 16);
      HexRoundTrip(bs[1..]);
      assert [b] + bs[1..] == bs;
    }
  }

  /** Distinct byte strings never render to the same hex text. */
  lemma HexIsInjective(a: seq<byte>, b: seq<byte>)
    ensures Hex(a) == Hex(b) <==> a == b
  {
    if Hex(a) == Hex(b) {
      HexRoundTrip(a);
      HexRoundTrip(b);
    }
  }

  /** The foreign collaborators of `hashOperations`. */
  datatype Hasher = Hasher(
    stringify: seq<Operation> -> string,
    encode: string -> seq<byte>,
    digest: seq<byte> -> seq<byte>)

  function Digest(h: Hasher, ops: seq<Operation>): seq<byte> {
    h.digest(h.encode(h.stringify(ops)))
  }

  /** `hashOperations`: twice as many lowercase hex characters as digest bytes. */
  function HashOperations(h: Hasher, ops: seq<Operation>): (v: string)
    ensures |v| == 2 * |Digest(h, ops)|
    ensures forall k :: 0 <= k < |v| ==> IsLowerHex(v[k])
  {
    HexIsLowercase(Digest(h, ops));
    Hex(Digest(h, ops))
  }

  /** A SHA-1 digest has 20 bytes, so a version has 40 characters. */
  lemma VersionLengthForSha1(h: Hasher, ops: seq<Operation>)
    requires |Digest(h, ops)| == 20
    ensures |HashOperations(h, ops)| == 40
  {
  }

  /** The version depends on the JSON text only. */
  lemma SameJsonSameVersion(h: Hasher, a: seq<Operation>, b: seq<Operation>)
    requires h.stringify(a) == h.stringify(b)
    ensures HashOperations(h, a) == HashOperations(h, b)
  {
  }

  /** Two versions agree exactly when the digests agree: the rendering adds no
      collisions of its own. */
  lemma SameVersionIffSameDigest(h: Hasher, a: seq<Operation>, b: seq<Operation>)
    ensures HashOperations(h, a) == HashOperations(h, b) <==> Digest(h, a) == Digest(h, b)
  {
    HexIsInjective(Digest(h, a), Digest(h, b));
  }
}
