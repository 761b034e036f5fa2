/**
  Field validators of the API request and response models. Each one returns
  its input unchanged when it accepts it and fails with the model's message
  otherwise (pydantic turns that failure into a 422 response).

  The hash and IMDB id checks use Python's `re.match` with a pattern ending
  in `$`. Python's `$` matches at the very end of the string AND just before
  a newline that ends the string, so each check also accepts its
  well-formed value followed by one "\n". The model keeps that behaviour.
 */
module ApiModels {
  import opened Wrappers

  /** A character of the class `[a-f0-9]`. */
  predicate IsLowerHex(c: char) {
    ('0' <= c <= '9') || ('a' <= c <= 'f')
  }

  /** A character of the class `[0-9]`. */
  predicate IsDigit(c: char) {
    '0' <= c <= '9'
  }

  predicate AllLowerHex(s: string) {
    forall i :: 0 <= i < |s| ==> IsLowerHex(s[i])
  }

  predicate AllDigits(s: string) {
    forall i :: 0 <= i < |s| ==> IsDigit(s[i])
  }

  /** Python's `$` can match at position `k` of `s`: the end, or just before a final newline. */
  predicate DollarAt(s: string, k: int) {
    k == |s| || (0 <= k == |s| - 1 && s[k] == '\n')
  }

  /** Reference meaning of `re.match(r'^[a-f0-9]+$', s)`: some non-empty run of hex characters at the start reaches a `$` position. */
  ghost predicate HexPatternMatches(s: string) {
    exists k :: 1 <= k <= |s| && AllLowerHex(s[..k]) && DollarAt(s, k)
  }

  /** Reference meaning of `re.match(r'^tt[0-9]{7,8}$', s)`: `tt`, then 7 or 8 digits reaching a `$` position. */
  ghost predicate ImdbPatternMatches(s: string) {
    exists k :: (k == 9 || k == 10) && k <= |s| && s[..2] == "tt" && AllDigits(s[2..k]) && DollarAt(s, k)
  }

  /** `s` without one final newline, if it has one: the part a `$`-anchored pattern must cover. */
  function BeforeFinalNewline(s: string): (r: string)
    ensures r == s || (r + "\n" == s)
  {
    if |s| > 0 && s[|s| - 1] == '\n' then s[..|s| - 1] else s
  }

  /** The hash pattern, decided by looking at the string once. */
  function HexLine(s: string): bool {
    var body := BeforeFinalNewline(s);
    |body| >= 1 && AllLowerHex(body)
  }

  /** The IMDB id pattern, decided by looking at the string once. */
  function ImdbLine(s: string): bool {
    var body := BeforeFinalNewline(s);
    (|body| == 9 || |body| == 10) && body[..2] == "tt" && AllDigits(body[2..])
  }

  /** `HexLine` decides exactly what Python's regular expression accepts. */
  lemma HexLineIsPattern(s: string)
    ensures HexLine(s) <==> HexPatternMatches(s)
  {
    var body := BeforeFinalNewline(s);
    if HexLine(s) {
      assert s[..|body|] == body;
      assert DollarAt(s, |body|);
    }
    if HexPatternMatches(s) {
      var k :| 1 <= k <= |s| && AllLowerHex(s[..k]) && DollarAt(s, k);
      if k == |s| {
        assert s[..k] == s;
      } else {
        assert body == s[..k];
      }
    }
  }

  /** `ImdbLine` decides exactly what Python's regular expression accepts. */
  lemma ImdbLineIsPattern(s: string)
    ensures ImdbLine(s) <==> ImdbPatternMatches(s)
  {
    var body := BeforeFinalNewline(s);
    if ImdbLine(s) {
      assert s[..|body|] == body;
      assert s[2..|body|] == body[2..];
      assert DollarAt(s, |body|);
    }
    if ImdbPatternMatches(s) {
      var k :| (k == 9 || k == 10) && k <= |s| && s[..2] == "tt" && AllDigits(s[2..k]) && DollarAt(s, k);
      if k == |s| {
        assert s[|s| - 1] == s[2..k][k - 3];
        assert body == s;
        assert body[2..] == s[2..k];
      } else {
        assert body == s[..k];
        assert body[2..] == s[2..k];
      }
    }
  }

  const HashMessage := "Hash must be a 40-character hexadecimal string"
  const ImdbMessage := "IMDB ID must match format tt followed by 7-8 digits"
  const ReleaseYearMessage := "Release year must be between 1850 and 2100"
  const RejectionStatusMessage := "Rejection status must be one of: unfiltered, accepted, rejected, override"

  /** `validate_hash` (the same in `MediaResponseModel` and `RejectionStatusUpdateRequest`). */
  function ValidateHash(v: string): (r: Result<string, string>)
    ensures r.Ok? ==> r.value == v
    ensures r.Err? ==> r.error == HashMessage
  {
    if !HexLine(v) || |v| != 40 then Err(HashMessage) else Ok(v)
  }

  /** The hash check accepts exactly 40 lowercase hex characters, or 39 of them followed by a newline. */
  lemma ValidateHashAccepts(v: string)
    ensures ValidateHash(v).Ok? <==> HexPatternMatches(v) && |v| == 40
    ensures ValidateHash(v).Ok? <==>
      |v| == 40 && (AllLowerHex(v) || (AllLowerHex(v[..39]) && v[39] == '\n'))
  {
    HexLineIsPattern(v);
    if |v| == 40 && v[39] == '\n' {
      assert BeforeFinalNewline(v) == v[..39];
      assert !AllLowerHex(v) by { assert !IsLowerHex(v[39]); }
    }
  }

  /** Uppercase hex is refused: the pattern is case-sensitive. */
  lemma ValidateHashRejectsUppercase(v: string, i: int)
    requires 0 <= i < |v| && 'A' <= v[i] <= 'F'
    ensures ValidateHash(v).Err?
  {
  }

  /** Because of `$`, 39 hex characters and a newline pass the 40-character hash check. */
  lemma HashWithFinalNewlineAccepted(h: string)
    requires |h| == 39 && AllLowerHex(h)
    ensures ValidateHash(h + "\n") == Ok(h + "\n")
  {
    assert BeforeFinalNewline(h + "\n") == h;
  }

  /** `validate_imdb_id`: `None` passes; otherwise `tt` and 7 or 8 digits. */
  function ValidateImdbId(v: Option<string>): (r: Result<Option<string>, string>)
    ensures r.Ok? ==> r.value == v
    ensures r.Err? ==> r.error == ImdbMessage
  {
    if v.Some? && !ImdbLine(v.value) then Err(ImdbMessage) else Ok(v)
  }

  /** The IMDB id check accepts `None` and exactly the strings the `$`-anchored pattern matches. */
  lemma ValidateImdbIdAccepts(v: Option<string>)
    ensures ValidateImdbId(v).Ok? <==> v.None? || ImdbPatternMatches(v.value)
    ensures v.Some? && ValidateImdbId(v).Ok? ==> 9 <= |v.value| <= 11 && v.value[..2] == "tt"
  {
    if v.Some? {
      ImdbLineIsPattern(v.value);
    }
  }

  /** `tt` and 7 or 8 digits pass, with or without one final newline. */
  lemma ImdbIdShapesAccepted(digits: string)
    requires (|digits| == 7 || |digits| == 8) && AllDigits(digits)
    ensures ValidateImdbId(Some("tt" + digits)).Ok?
    ensures ValidateImdbId(Some("tt" + digits + "\n")).Ok?
  {
    assert BeforeFinalNewline("tt" + digits + "\n") == "tt" + digits;
    assert ("tt" + digits)[2..] == digits;
  }

  /** `validate_release_year`: `None` passes; otherwise 1850..2100 inclusive. */
  function ValidateReleaseYear(v: Option<int>): (r: Result<Option<int>, string>)
    ensures r.Ok? ==> r.value == v
    ensures r.Ok? <==> v.None? || 1850 <= v.value <= 2100
  {
    if v.Some? && (v.value < 1850 || v.value > 2100) then Err(ReleaseYearMessage) else Ok(v)
  }

  const RejectionStatuses: seq<string> := ["unfiltered", "accepted", "rejected", "override"]

  /** `validate_rejection_status`: membership in the four statuses. */
  function ValidateRejectionStatus(v: string): (r: Result<string, string>)
    ensures r.Ok? ==> r.value == v
    ensures r.Ok? <==> v == "unfiltered" || v == "accepted" || v == "rejected" || v == "override"
  {
    if v !in RejectionStatuses then Err(RejectionStatusMessage) else Ok(v)
  }
}
