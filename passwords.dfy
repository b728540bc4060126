/** The self-describing password-hash string `pbkdf2_<digest>$<iterations>$<salt>$<hash>`:
    `hashPassword` writes it, `verifyPassword` parses it strictly and re-derives the key. */
module Passwords {
  import opened Common
  import opened Strings
  import opened Base64Url
  import opened SafeCompare

  /** `crypto.pbkdf2Sync(password, salt, iterations, keylen, digest)`, PBKDF2 of section 5.2
      of RFC 8018, taken as given. None stands for a call that throws (Node rejects an
      unknown digest name or an iteration count below one). */
  type Pbkdf2 = (string, seq<byte>, nat, nat, string) -> Option<seq<byte>>

  /** The one fact the module relies on: a derived key is exactly `keylen` bytes long. */
  ghost predicate KeepsKeyLength(pbkdf2: Pbkdf2)
  {
    forall password, salt, iterations, keyLen, digest ::
      pbkdf2(password, salt, iterations, keyLen, digest).Some? ==>
        |pbkdf2(password, salt, iterations, keyLen, digest).value| == keyLen
  }

  const DefaultIterations: nat := 200_000
  const DefaultSaltBytes: nat := 16
  const DefaultKeyLen: nat := 32
  const DefaultDigest: string := "sha256"
  const SchemePrefix: string := "pbkdf2_"

  /** 2^1024 - 2^970, halfway between the largest finite double (2^1024 - 2^971) and 2^1024.
      `Number()` rounds a decimal digit run to the nearest double, ties to even, so a run whose
      value is at least this is `Infinity` and fails `Number.isFinite`. */
  const InfinityThreshold: nat :=
    179769313486231580793728971405303415079934132710037826936173778980444968292764750946649017977587207096330286416692887910946555547851940402630657488671505820681908902000708383676273854845817711531764475730270069855571366959622842914819860834936475292719074168444365510704342711559699508093042880177904174497792

  /** The `opts` of `hashPassword`; an absent field takes its default (`??`). */
  datatype HashOptions = HashOptions(
    iterations: Option<nat>, saltBytes: Option<nat>, keyLen: Option<nat>, digest: Option<string>)
  {
    function Iterations(): nat { if iterations.Some? then iterations.value else DefaultIterations }
    function SaltBytes(): nat { if saltBytes.Some? then saltBytes.value else DefaultSaltBytes }
    function KeyLen(): nat { if keyLen.Some? then keyLen.value else DefaultKeyLen }
    function Digest(): string { if digest.Some? then digest.value else DefaultDigest }
  }

  const Defaults := HashOptions(None, None, None, None)

  /** The parameters a stored hash string carries, once parsed. */
  datatype StoredHash = StoredHash(digest: string, iterations: nat, salt: seq<byte>, hash: seq<byte>)

  /** The template of src/utils/security.js:36. */
  function FormatHash(digest: string, iterations: nat, salt: seq<byte>, key: seq<byte>): string
  {
    SchemePrefix + digest + "$" + NatToDecimal(iterations) + "$" + Encode(salt) + "$" + Encode(key)
  }

  /** `hashPassword` (src/utils/security.js:27-37). `salt` is what `crypto.randomBytes`
      returned for this call. */
  function HashPassword(pbkdf2: Pbkdf2, password: string, opts: HashOptions, salt: seq<byte>)
    : (r: Outcome<string>)
    requires |salt| == opts.SaltBytes()
    ensures r.Threw? <==> pbkdf2(password, salt, opts.Iterations(), opts.KeyLen(), opts.Digest()).None?
  {
    match pbkdf2(password, salt, opts.Iterations(), opts.KeyLen(), opts.Digest())
    case None => Threw
    case Some(derivedKey) => Returned(FormatHash(opts.Digest(), opts.Iterations(), salt, derivedKey))
  }

  /** The format checks of src/utils/security.js:41-53, in their order: four `$` fields,
      the scheme prefix, a decimal iteration count that is positive and finite as a double,
      non-empty salt and hash. */
  function ParseStored(s: string): (r: Option<StoredHash>)
    ensures r.Some? ==> 0 < r.value.iterations < InfinityThreshold
    ensures r.Some? ==> |r.value.salt| > 0 && |r.value.hash| > 0
    ensures r.Some? ==> '$' !in r.value.digest
  {
    var parts := Split(s, '$');
    if |parts| != 4 then None
    else if !StartsWith(parts[0], SchemePrefix) then None
    else
      match ParseDecimal(parts[1])
      case None => None
      case Some(iterations) =>
        if iterations <= 0 || iterations >= InfinityThreshold then None
        else
          var salt := Decode(Str(parts[2]));
          var expectedHash := Decode(Str(parts[3]));
          if |salt| == 0 || |expectedHash| == 0 then None
          else
            assert forall c :: c in parts[0][|SchemePrefix|..] ==> c in parts[0];
            Some(StoredHash(parts[0][|SchemePrefix|..], iterations, salt, expectedHash))
  }

  /** `verifyPassword` (src/utils/security.js:39-57). A true verdict means the stored hash is
      exactly the key re-derived from the password with the stored parameters and the
      stored hash's own length; it throws only where key derivation throws. */
  function VerifyPassword(pbkdf2: Pbkdf2, password: string, stored: Arg): (r: Outcome<bool>)
    ensures r == Returned(true) <==>
      stored.Str? && ParseStored(stored.s).Some? &&
      var h := ParseStored(stored.s).value;
      pbkdf2(password, h.salt, h.iterations, |h.hash|, h.digest) == Some(h.hash)
    ensures r == Threw <==>
      stored.Str? && ParseStored(stored.s).Some? &&
      var h := ParseStored(stored.s).value;
      pbkdf2(password, h.salt, h.iterations, |h.hash|, h.digest).None?
  {
    match stored
    case NonString => Returned(false)
    case Str(s) =>
      match ParseStored(s)
      case None => Returned(false)
      case Some(h) =>
        match pbkdf2(password, h.salt, h.iterations, |h.hash|, h.digest)
        case None => Threw
        case Some(actualHash) => Returned(TimingSafeEqual(actualHash, h.hash))
  }

  /** A hash string splits on `$` into the scheme, the decimal count, and the two encodings. */
  lemma FormatFields(digest: string, iterations: nat, salt: seq<byte>, key: seq<byte>)
    requires '$' !in digest
    ensures Split(FormatHash(digest, iterations, salt, key), '$')
         == [SchemePrefix + digest, NatToDecimal(iterations), Encode(salt), Encode(key)]
  {
    EncodeAlphabet(salt);
    EncodeAlphabet(key);
    assert '$' !in SchemePrefix + digest;
    assert '$' !in NatToDecimal(iterations) by {
      assert forall i :: 0 <= i < |NatToDecimal(iterations)| ==> NatToDecimal(iterations)[i] != '$';
    }
    SplitFour(SchemePrefix + digest, NatToDecimal(iterations), Encode(salt), Encode(key), '$');
  }

  /** The strict parser reads back every hash string the encoder can write. */
  lemma ParseFormatted(digest: string, iterations: nat, salt: seq<byte>, key: seq<byte>)
    requires '$' !in digest && 0 < iterations < InfinityThreshold && |salt| > 0 && |key| > 0
    ensures ParseStored(FormatHash(digest, iterations, salt, key))
         == Some(StoredHash(digest, iterations, salt, key))
  {
    var scheme := SchemePrefix + digest;
    FormatFields(digest, iterations, salt, key);
    assert StartsWith(scheme, SchemePrefix);
    assert scheme[|SchemePrefix|..] == digest;
    DecimalRoundTrip(iterations);
    DecodeEncode(salt);
    DecodeEncode(key);
  }

  /** Round trip: with a deterministic PBKDF2 that keeps key lengths, a password verifies
      against the hash string made from it, for positive iterations and non-empty
      salt and key. */
  lemma HashThenVerify(pbkdf2: Pbkdf2, password: string, opts: HashOptions, salt: seq<byte>)
    requires KeepsKeyLength(pbkdf2)
    requires |salt| == opts.SaltBytes()
    requires 0 < opts.Iterations() < InfinityThreshold && opts.SaltBytes() > 0 && opts.KeyLen() > 0
    requires '$' !in opts.Digest()
    requires pbkdf2(password, salt, opts.Iterations(), opts.KeyLen(), opts.Digest()).Some?
    ensures HashPassword(pbkdf2, password, opts, salt).Returned?
    ensures VerifyPassword(pbkdf2, password, Str(HashPassword(pbkdf2, password, opts, salt).value))
         == Returned(true)
  {
    var key := pbkdf2(password, salt, opts.Iterations(), opts.KeyLen(), opts.Digest()).value;
    ParseFormatted(opts.Digest(), opts.Iterations(), salt, key);
  }

  /** With the default options the string is `pbkdf2_sha256$200000$<22 chars>$<43 chars>`:
      a 16-byte salt and a 32-byte key, sha256, 200000 iterations. */
  lemma DefaultShape(pbkdf2: Pbkdf2, password: string, salt: seq<byte>)
    requires KeepsKeyLength(pbkdf2)
    requires |salt| == DefaultSaltBytes
    requires HashPassword(pbkdf2, password, Defaults, salt).Returned?
    ensures var fields := Split(HashPassword(pbkdf2, password, Defaults, salt).value, '$');
      |fields| == 4 && fields[0] == "pbkdf2_sha256" && fields[1] == "200000" &&
      |fields[2]| == 22 && |Decode(Str(fields[2]))| == 16 &&
      |fields[3]| == 43 && |Decode(Str(fields[3]))| == 32
  {
    var key := pbkdf2(password, salt, DefaultIterations, DefaultKeyLen, DefaultDigest).value;
    assert |key| == DefaultKeyLen;
    assert HashPassword(pbkdf2, password, Defaults, salt).value
        == FormatHash(DefaultDigest, DefaultIterations, salt, key);
    DefaultFormat(salt, key);
  }

  /** The default hash string, split on `$`. */
  lemma DefaultFormat(salt: seq<byte>, key: seq<byte>)
    requires |salt| == 16 && |key| == 32
    ensures var fields := Split(FormatHash(DefaultDigest, DefaultIterations, salt, key), '$');
      |fields| == 4 && fields[0] == "pbkdf2_sha256" && fields[1] == "200000" &&
      |fields[2]| == 22 && |Decode(Str(fields[2]))| == 16 &&
      |fields[3]| == 43 && |Decode(Str(fields[3]))| == 32
  {
    var fields := Split(FormatHash(DefaultDigest, DefaultIterations, salt, key), '$');
    FormatFields(DefaultDigest, DefaultIterations, salt, key);
    DefaultFields(salt, key);
    assert fields[2] == Encode(salt) && fields[3] == Encode(key);
  }

  /** The four fields of a hash string made with the default options. */
  lemma DefaultFields(salt: seq<byte>, key: seq<byte>)
    requires |salt| == 16 && |key| == 32
    ensures SchemePrefix + DefaultDigest == "pbkdf2_sha256"
    ensures NatToDecimal(DefaultIterations) == "200000"
    ensures |Encode(salt)| == 22 && |Decode(Str(Encode(salt)))| == 16
    ensures |Encode(key)| == 43 && |Decode(Str(Encode(key)))| == 32
  {
    DefaultSchemeText();
    DefaultIterationsText();
    EncodedLength(salt, 16, 22);
    EncodedLength(key, 32, 43);
  }

  lemma DefaultSchemeText()
    ensures SchemePrefix + DefaultDigest == "pbkdf2_sha256"
  {
  }

  /** An `n`-byte buffer encodes to `m` characters that decode back to `n` bytes. */
  lemma EncodedLength(b: seq<byte>, n: nat, m: nat)
    requires |b| == n && SextetCount(n) == m
    ensures |Encode(b)| == m && |Decode(Str(Encode(b)))| == n
  {
    EncodeAlphabet(b);
    DecodeEncode(b);
  }

  lemma DefaultIterationsText()
    ensures NatToDecimal(DefaultIterations) == "200000"
  {
    assert NatToDecimal(2) == "2";
    assert NatToDecimal(20) == "20";
    assert NatToDecimal(200) == "200";
    assert NatToDecimal(2000) == "2000";
    assert NatToDecimal(20000) == "20000";
  }

  /** Every malformed shape is a plain non-match, whatever key derivation would do:
      a non-string, a field count other than four, a missing scheme prefix, an iteration
      field that is not a positive decimal, an empty decoded salt or hash. */
  lemma MalformedIsFalse(pbkdf2: Pbkdf2, password: string, stored: Arg)
    ensures stored.NonString? ==> VerifyPassword(pbkdf2, password, stored) == Returned(false)
    ensures stored.Str? ==>
      var parts := Split(stored.s, '$');
      (|parts| != 4 ||
       !StartsWith(parts[0], SchemePrefix) ||
       ParseDecimal(parts[1]).None? || ParseDecimal(parts[1]).value == 0 ||
       ParseDecimal(parts[1]).value >= InfinityThreshold ||
       |Decode(Str(parts[2]))| == 0 || |Decode(Str(parts[3]))| == 0)
      ==> VerifyPassword(pbkdf2, password, stored) == Returned(false)
  {
  }

  /** A hash string whose count `Number()` rounds to `Infinity` is a plain non-match: the
      count fails `Number.isFinite` and key derivation is never reached. */
  lemma InfiniteCountIsFalse(
    pbkdf2: Pbkdf2, password: string, digest: string, iterations: nat, salt: seq<byte>, key: seq<byte>)
    requires '$' !in digest && iterations >= InfinityThreshold
    ensures VerifyPassword(pbkdf2, password, Str(FormatHash(digest, iterations, salt, key))) == Returned(false)
  {
    FormatFields(digest, iterations, salt, key);
    DecimalRoundTrip(iterations);
    assert StartsWith(SchemePrefix + digest, SchemePrefix);
  }

  /** There is no legacy plaintext branch: a stored value without the scheme prefix never
      matches any password, the stored value itself included. */
  lemma PlaintextNeverMatches(pbkdf2: Pbkdf2, password: string, stored: string)
    requires !StartsWith(stored, SchemePrefix)
    ensures VerifyPassword(pbkdf2, password, Str(stored)) == Returned(false)
  {
    var parts := Split(stored, '$');
    if |parts| == 4 {
      JoinSplit(stored, '$');
      assert stored == parts[0] + "$" + Join(parts[1..], '$');
      assert !StartsWith(parts[0], SchemePrefix);
    }
  }

  /** A hash string of the right shape whose digest key derivation rejects makes
      `verifyPassword` throw instead of returning false. */
  lemma UnknownDigestThrows(
    pbkdf2: Pbkdf2, password: string, digest: string, iterations: nat, salt: seq<byte>, key: seq<byte>)
    requires '$' !in digest && 0 < iterations < InfinityThreshold && |salt| > 0 && |key| > 0
    requires pbkdf2(password, salt, iterations, |key|, digest).None?
    ensures VerifyPassword(pbkdf2, password, Str(FormatHash(digest, iterations, salt, key))) == Threw
  {
    ParseFormatted(digest, iterations, salt, key);
  }
}
