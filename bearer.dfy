/** `getTokenFromRequest` (src/middleware/auth.js:4-9): the authorization header matched
    against `/^Bearer\s+(.+)$/i`, the capture group being the token. */
module Bearer {
  import opened Common

  /** `\s` of ECMAScript regular expressions: the WhiteSpace and LineTerminator code points. */
  predicate IsRegexSpace(c: char)
  {
    var n := c as int;
    n == 0x09 || n == 0x0A || n == 0x0B || n == 0x0C || n == 0x0D || n == 0x20 ||
    n == 0xA0 || n == 0x1680 || (0x2000 <= n <= 0x200A) || n == 0x2028 || n == 0x2029 ||
    n == 0x202F || n == 0x205F || n == 0x3000 || n == 0xFEFF
  }

  /** The characters `.` does not match without the `s` flag. */
  predicate IsLineTerminator(c: char)
  {
    var n := c as int;
    n == 0x0A || n == 0x0D || n == 0x2028 || n == 0x2029
  }

  function LowerAscii(c: char): char
  {
    if 'A' <= c <= 'Z' then (c as int + 32) as char else c
  }

  /** `Bearer` under the `i` flag. Only ASCII letters fold onto these letters. */
  predicate IsBearerWord(w: string)
  {
    |w| == 6 && forall i :: 0 <= i < 6 ==> LowerAscii(w[i]) == "bearer"[i]
  }

  /** The regex matches `h` with `\s+` covering `h[6..k]` and the group capturing `h[k..]`. */
  predicate MatchAt(h: string, k: int)
  {
    6 < k < |h| && IsBearerWord(h[..6]) &&
    (forall i :: 6 <= i < k ==> IsRegexSpace(h[i])) &&
    (forall i :: k <= i < |h| ==> !IsLineTerminator(h[i]))
  }

  /** The length of the run of `\s` characters at the start of `s`. */
  function LeadingSpaces(s: string): (m: nat)
    ensures m <= |s|
    ensures forall i :: 0 <= i < m ==> IsRegexSpace(s[i])
    ensures m < |s| ==> !IsRegexSpace(s[m])
    decreases |s|
  {
    if |s| == 0 || !IsRegexSpace(s[0]) then 0 else 1 + LeadingSpaces(s[1..])
  }

  function HasLineTerminator(s: string): bool
  {
    exists i :: 0 <= i < |s| && IsLineTerminator(s[i])
  }

  /** The header is taken from `req.headers?.authorization`: anything but a string gives no
      token. Greedy `\s+` takes the whole leading run of spaces, backing off by one only
      when that leaves nothing for `(.+)`; the match fails if the rest holds a line terminator.
      The result is the capture of the match with the longest `\s+`, and there is one
      exactly when the regex matches at all. */
  function GetTokenFromRequest(authorization: Arg): (r: Option<string>)
    ensures r.Some? <==> authorization.Str? && exists k :: MatchAt(authorization.s, k)
    ensures r.Some? ==>
      var h := authorization.s;
      var k := |h| - |r.value|;
      0 <= k && MatchAt(h, k) && r.value == h[k..] &&
      forall j :: MatchAt(h, j) ==> j <= k
  {
    match authorization
    case NonString => None
    case Str(h) =>
      if |h| < 6 || !IsBearerWord(h[..6]) then
        assert forall j :: !MatchAt(h, j);
        None
      else
        var rest := h[6..];
        var m := LeadingSpaces(rest);
        var k := if m < |rest| then m else |rest| - 1;
        assert forall j :: MatchAt(h, j) ==> j <= 6 + k;
        if k < 1 || HasLineTerminator(rest[k..]) then
          assert forall j :: !MatchAt(h, j);
          None
        else
          assert MatchAt(h, 6 + k) by {
            forall i | 6 + k <= i < |h| ensures !IsLineTerminator(h[i]) {
              assert h[i] == rest[k..][i - 6 - k];
            }
          }
          Some(rest[k..])
  }

  /** A returned token is non-empty, a proper suffix of the header, and free of line
      terminators. */
  lemma TokenIsCleanSuffix(authorization: Arg)
    requires GetTokenFromRequest(authorization).Some?
    ensures var t := GetTokenFromRequest(authorization).value;
      var h := authorization.s;
      authorization.Str? && 0 < |t| < |h| && h[|h| - |t|..] == t &&
      forall i :: 0 <= i < |t| ==> !IsLineTerminator(t[i])
  {
    var t := GetTokenFromRequest(authorization).value;
    var h := authorization.s;
    var k := |h| - |t|;
    assert MatchAt(h, k);
    forall i | 0 <= i < |t| ensures !IsLineTerminator(t[i]) {
      assert t[i] == h[k + i];
    }
  }

  /** `Bearer` in any letter case, one space, then the token: the token comes back as is. */
  lemma BearerToken(word: string, token: string)
    requires IsBearerWord(word)
    requires |token| > 0 && !IsRegexSpace(token[0])
    requires forall i :: 0 <= i < |token| ==> !IsLineTerminator(token[i])
    ensures GetTokenFromRequest(Str(word + " " + token)) == Some(token)
  {
    var h := word + " " + token;
    assert h[..6] == word;
    assert MatchAt(h, 7) by {
      forall i | 7 <= i < |h| ensures !IsLineTerminator(h[i]) {
        assert h[i] == token[i - 7];
      }
    }
    var t := GetTokenFromRequest(Str(h)).value;
    var k := |h| - |t|;
    assert k >= 7;
    assert t == h[7..];
  }
}
