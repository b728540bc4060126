/** The unpadded URL-safe base64 of section 5 of RFC 4648, built the way
    `base64UrlEncode` and `base64UrlDecodeToBuffer` build it: Node's standard
    base64 with the padding stripped and `+`, `/` swapped for `-`, `_`, and back. */
module Base64Url {
  import opened Common
  import opened Strings

  /** The alphabet of section 4 of RFC 4648. */
  predicate IsStdChar(c: char)
  {
    'A' <= c <= 'Z' || 'a' <= c <= 'z' || '0' <= c <= '9' || c == '+' || c == '/'
  }

  /** The alphabet of section 5 of RFC 4648. */
  predicate IsUrlChar(c: char)
  {
    'A' <= c <= 'Z' || 'a' <= c <= 'z' || '0' <= c <= '9' || c == '-' || c == '_'
  }

  /** Six-bit groups, each held in the low bits of a byte. */
  predicate IsSextets(v: seq<bv8>)
  {
    forall i :: 0 <= i < |v| ==> v[i] < 64
  }

  function StdChar(v: bv8): (c: char)
    requires v < 64
    ensures IsStdChar(c)
  {
    if v < 26 then (65 + v as int) as char
    else if v < 52 then (97 + (v as int - 26)) as char
    else if v < 62 then (48 + (v as int - 52)) as char
    else if v == 62 then '+'
    else '/'
  }

  /** The decoder's table: the value a standard-alphabet character stands for. */
  function StdValue(c: char): (v: bv8)
    requires IsStdChar(c)
    ensures v < 64
  {
    if 'A' <= c <= 'Z' then (c as int - 65) as bv8
    else if 'a' <= c <= 'z' then (c as int - 97 + 26) as bv8
    else if '0' <= c <= '9' then (c as int - 48 + 52) as bv8
    else if c == '+' then 62
    else 63
  }

  lemma SmallBv(x: int)
    requires 0 <= x < 64
    ensures (x as bv8) as int == x
  {
  }

  /** The decoder's table inverts the encoder's. */
  lemma StdValueOfChar(v: bv8)
    requires v < 64
    ensures StdValue(StdChar(v)) == v
  {
    var n := v as int;
    var c := StdChar(v);
    if n < 26 {
      assert c as int == 65 + n;
      SmallBv(n);
    } else if n < 52 {
      assert c as int == 97 + n - 26;
      SmallBv(n);
    } else if n < 62 {
      assert c as int == 48 + n - 52;
      SmallBv(n);
    }
  }

  function UrlChar(v: bv8): (c: char)
    requires v < 64
  {
    if v == 62 then '-' else if v == 63 then '_' else StdChar(v)
  }

  /** The six-bit groups of the encoding without padding: four per three bytes,
      two for a trailing byte and three for two trailing bytes. */
  function Sextets(b: seq<byte>): (v: seq<bv8>)
    ensures IsSextets(v)
    ensures |v| == SextetCount(|b|)
    decreases |b|
  {
    if |b| == 0 then []
    else if |b| == 1 then [b[0] >> 2, (b[0] & 3) << 4]
    else if |b| == 2 then [b[0] >> 2, ((b[0] & 3) << 4) | (b[1] >> 4), (b[1] & 15) << 2]
    else
      [b[0] >> 2, ((b[0] & 3) << 4) | (b[1] >> 4), ((b[1] & 15) << 2) | (b[2] >> 6), b[2] & 63]
        + Sextets(b[3..])
  }

  function SextetCount(n: nat): nat
  {
    n / 3 * 4 + (if n % 3 == 0 then 0 else n % 3 + 1)
  }

  /** Bytes back from six-bit groups, as a base64 decoder reassembles them; a lone
      trailing group carries fewer than eight bits and yields nothing. */
  function FromSextets(v: seq<bv8>): seq<byte>
    decreases |v|
  {
    if |v| < 2 then []
    else if |v| == 2 then [(v[0] << 2) | (v[1] >> 4)]
    else if |v| == 3 then [(v[0] << 2) | (v[1] >> 4), (v[1] << 4) | (v[2] >> 2)]
    else
      [(v[0] << 2) | (v[1] >> 4), (v[1] << 4) | (v[2] >> 2), (v[2] << 6) | v[3]]
        + FromSextets(v[4..])
  }

  function StdChars(v: seq<bv8>): (s: string)
    requires IsSextets(v)
  {
    seq(|v|, i requires 0 <= i < |v| => StdChar(v[i]))
  }

  function UrlChars(v: seq<bv8>): (s: string)
    requires IsSextets(v)
  {
    seq(|v|, i requires 0 <= i < |v| => UrlChar(v[i]))
  }

  /** `buffer.toString('base64')`: standard alphabet, padded with `=` to a multiple of four. */
  function StdEncode(b: seq<byte>): string
  {
    StdChars(Sextets(b)) + Repeat('=', (3 - |b| % 3) % 3)
  }

  /** `base64UrlEncode` of a buffer (src/utils/security.js:3-10). */
  function Encode(b: seq<byte>): string
  {
    ReplaceAll(ReplaceAll(RemoveAll(StdEncode(b), '='), '+', '-'), '/', '_')
  }

  /** The number of `=` that `base64UrlDecodeToBuffer` re-appends. */
  function PadLength(n: nat): (k: nat)
    ensures k <= 3 && (n + k) % 4 == 0
  {
    (4 - n % 4) % 4
  }

  /** The six-bit values of the leading run of standard-alphabet characters. */
  function AlphabetPrefix(s: string): (v: seq<bv8>)
    ensures IsSextets(v)
    decreases |s|
  {
    if |s| == 0 || !IsStdChar(s[0]) then [] else [StdValue(s[0])] + AlphabetPrefix(s[1..])
  }

  /** `Buffer.from(s, 'base64')` on the strings this module produces: the groups
      before the first `=` are decoded. */
  function NodeDecode(s: string): seq<byte>
  {
    FromSextets(AlphabetPrefix(s))
  }

  /** `base64UrlDecodeToBuffer` (src/utils/security.js:12-18). */
  function Decode(input: Arg): (b: seq<byte>)
    ensures input.NonString? ==> b == []
  {
    match input
    case NonString => []
    case Str(s) =>
      var normalized := ReplaceAll(ReplaceAll(s, '-', '+'), '_', '/');
      NodeDecode(normalized + Repeat('=', PadLength(|normalized|)))
  }

  lemma {:induction false} FromSextetsInverse(b: seq<byte>)
    ensures FromSextets(Sextets(b)) == b
    decreases |b|
  {
    if |b| >= 3 {
      var v := Sextets(b);
      assert v[4..] == Sextets(b[3..]);
      FromSextetsInverse(b[3..]);
      assert b == b[..3] + b[3..];
    }
  }

  lemma {:induction false} AlphabetPrefixOfChars(v: seq<bv8>, t: string)
    requires IsSextets(v)
    requires |t| == 0 || !IsStdChar(t[0])
    ensures AlphabetPrefix(StdChars(v) + t) == v
    decreases |v|
  {
    var s := StdChars(v) + t;
    if |v| > 0 {
      assert s[0] == StdChar(v[0]);
      assert s[1..] == StdChars(v[1..]) + t;
      AlphabetPrefixOfChars(v[1..], t);
      StdValueOfChar(v[0]);
      assert [v[0]] + v[1..] == v;
    } else {
      assert s == t;
    }
  }

  /** The encoder's output is exactly the URL-alphabet characters of the six-bit
      groups, with no padding. */
  lemma EncodeIsUnpaddedUrl(b: seq<byte>)
    ensures Encode(b) == UrlChars(Sextets(b))
  {
    var v := Sextets(b);
    StripPadding(b);
    var r := Encode(b);
    forall i | 0 <= i < |r| ensures r[i] == UrlChar(v[i]) {
      assert StdChars(v)[i] == StdChar(v[i]);
    }
  }

  lemma StripPadding(b: seq<byte>)
    ensures RemoveAll(StdEncode(b), '=') == StdChars(Sextets(b))
  {
    var v := Sextets(b);
    var pad := Repeat('=', (3 - |b| % 3) % 3);
    RemoveAllConcat(StdChars(v), pad, '=');
    assert '=' !in StdChars(v) by {
      forall i | 0 <= i < |v| ensures StdChars(v)[i] != '=' {
        assert IsStdChar(StdChar(v[i]));
      }
    }
    RemoveAllAbsent(StdChars(v), '=');
  }

  /** Every character of an encoding is in the URL-safe alphabet, so it holds no
      `=`, `+`, `/`, nor the `.` and `$` the token and hash formats separate with. */
  lemma EncodeAlphabet(b: seq<byte>)
    ensures |Encode(b)| == SextetCount(|b|)
    ensures forall i :: 0 <= i < |Encode(b)| ==> IsUrlChar(Encode(b)[i])
    ensures '=' !in Encode(b) && '+' !in Encode(b) && '/' !in Encode(b)
    ensures '.' !in Encode(b) && '$' !in Encode(b)
  {
    EncodeIsUnpaddedUrl(b);
  }

  /** Decoding an encoding gives the bytes back. */
  lemma DecodeEncode(b: seq<byte>)
    ensures Decode(Str(Encode(b))) == b
  {
    var v := Sextets(b);
    EncodeIsUnpaddedUrl(b);
    var normalized := ReplaceAll(ReplaceAll(Encode(b), '-', '+'), '_', '/');
    assert normalized == StdChars(v);
    AlphabetPrefixOfChars(v, Repeat('=', PadLength(|normalized|)));
    FromSextetsInverse(b);
  }
}
