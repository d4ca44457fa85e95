// The clientContextID codec of context_id.py and the ownership check of
// async_query.py that is built on it.

module ContextId {
  import opened Basics
  import opened Text

  const DELIMITER := "::"
  const PLACEHOLDER := "_"
  const MAX_USER_TAG_LENGTH: nat := 64

  /** The regex class [:\s]. */
  predicate Unsafe(c: char) {
    c == ':' || IsSpace(c)
  }

  predicate AllSafe(s: string) {
    forall i :: 0 <= i < |s| ==> !Unsafe(s[i])
  }

  predicate IsDash(c: char) {
    c == '-'
  }

  /** Every maximal run of unsafe characters becomes one "-". */
  function Collapse(s: string): (r: string)
    ensures AllSafe(r)
    decreases |s|
  {
    if s == "" then ""
    else if Unsafe(s[0]) then "-" + Collapse(LStrip(s[1..], Unsafe))
    else [s[0]] + Collapse(s[1..])
  }

  /** cleaned[:max_length].strip("-"), when a length is given. */
  function Clip(cleaned: string, maxLength: Option<nat>): (r: string)
    ensures maxLength.Some? ==> |r| <= maxLength.value && Trimmed(r, IsDash)
  {
    match maxLength
    case None => cleaned
    case Some(m) => Strip(if m < |cleaned| then cleaned[..m] else cleaned, IsDash)
  }

  /** What a segment may look like once it is inside an id. */
  predicate SafeSegment(s: string, maxLength: Option<nat>) {
    && s != ""
    && AllSafe(s)
    && Trimmed(s, IsDash)
    && (maxLength.Some? ==> |s| <= maxLength.value || s == PLACEHOLDER)
  }

  lemma {:induction false} CollapseSafe(s: string)
    requires AllSafe(s)
    ensures Collapse(s) == s
  {
    if s != "" {
      CollapseSafe(s[1..]);
    }
  }

  lemma StripSafe(s: string)
    requires AllSafe(s)
    ensures AllSafe(Strip(s, IsDash))
  {
    var a, b := StripParts(s, IsDash);
    var r := Strip(s, IsDash);
    forall i | 0 <= i < |r| ensures !Unsafe(r[i]) {
      assert (r + b)[i] == r[i];
      assert s[|a| + i] == (r + b)[i];
    }
  }

  lemma ClipSafe(cleaned: string, maxLength: Option<nat>)
    requires AllSafe(cleaned)
    ensures AllSafe(Clip(cleaned, maxLength))
  {
    if maxLength.Some? {
      if maxLength.value < |cleaned| {
        StripSafe(cleaned[..maxLength.value]);
      } else {
        StripSafe(cleaned);
      }
    }
  }

  function Cleaned(value: string): (r: string)
    ensures AllSafe(r) && Trimmed(r, IsDash)
  {
    StripSafe(Collapse(Strip(value, IsSpace)));
    Strip(Collapse(Strip(value, IsSpace)), IsDash)
  }

  function Sanitize(value: string, maxLength: Option<nat>): string {
    var cut := Clip(Cleaned(value), maxLength);
    if cut == "" then PLACEHOLDER else cut
  }

  /** Sanitizing always yields a safe segment: non-empty, no ":" and no whitespace. */
  lemma SanitizeSafe(value: string, maxLength: Option<nat>)
    ensures SafeSegment(Sanitize(value, maxLength), maxLength)
  {
    ClipSafe(Cleaned(value), maxLength);
    PlaceholderSafe(PLACEHOLDER, maxLength);
    CutSafe(Cleaned(value), maxLength);
  }

  lemma PlaceholderSafe(s: string, maxLength: Option<nat>)
    requires s == PLACEHOLDER
    ensures SafeSegment(s, maxLength)
  {
    assert s == ['_'];
  }

  lemma CutSafe(cleaned: string, maxLength: Option<nat>)
    requires AllSafe(cleaned) && Trimmed(cleaned, IsDash)
    ensures Clip(cleaned, maxLength) == "" || SafeSegment(Clip(cleaned, maxLength), maxLength)
  {
    ClipSafe(cleaned, maxLength);
  }

  /** The safe segments are exactly the strings sanitizing leaves alone. */
  lemma SanitizeFixed(value: string, maxLength: Option<nat>)
    ensures Sanitize(value, maxLength) == value <==> SafeSegment(value, maxLength)
  {
    SanitizeSafe(value, maxLength);
    if SafeSegment(value, maxLength) {
      CleanedSafe(value, maxLength);
      ClipFits(value, maxLength);
    }
  }

  lemma CleanedSafe(value: string, maxLength: Option<nat>)
    requires SafeSegment(value, maxLength)
    ensures Cleaned(value) == value
  {
    StripTrimmed(value, IsSpace);
    CollapseSafe(value);
    StripTrimmed(value, IsDash);
  }

  lemma ClipFits(value: string, maxLength: Option<nat>)
    requires SafeSegment(value, maxLength)
    ensures (if Clip(value, maxLength) == "" then PLACEHOLDER else Clip(value, maxLength)) == value
  {
    StripTrimmed(value, IsDash);
    PlaceholderClips(PLACEHOLDER, maxLength);
  }

  lemma PlaceholderClips(s: string, maxLength: Option<nat>)
    requires s == PLACEHOLDER
    ensures Clip(s, maxLength) == s || Clip(s, maxLength) == ""
  {
    assert s == ['_'];
    if maxLength.Some? && maxLength.value == 0 {
      assert s[..0] == "";
    } else {
      StripTrimmed(s, IsDash);
    }
  }

  lemma SanitizeIdempotent(value: string, maxLength: Option<nat>)
    ensures Sanitize(Sanitize(value, maxLength), maxLength) == Sanitize(value, maxLength)
  {
    SanitizeSafe(value, maxLength);
    SanitizeFixed(Sanitize(value, maxLength), maxLength);
  }

  function SessionSegment(sessionId: string): (r: string)
    ensures AllSafe(r)
  {
    SanitizeSafe(sessionId, None);
    Sanitize(sessionId, None)
  }

  function TagSegment(userTag: Option<string>): (r: string)
    ensures AllSafe(r)
  {
    SanitizeSafe(userTag.GetOr(""), Some(MAX_USER_TAG_LENGTH));
    Sanitize(userTag.GetOr(""), Some(MAX_USER_TAG_LENGTH))
  }

  function Make(sessionId: string, userTag: Option<string>, uuid: string): string {
    Join([SessionSegment(sessionId), TagSegment(userTag), SessionSegment(uuid)], DELIMITER)
  }

  /** Exactly three "::"-separated segments, or ValueError. */
  function Parse(id: string): Result<(string, string, string)> {
    var parts := Split(id, DELIMITER);
    if |parts| != 3 then Err(BadValue) else Ok((parts[0], parts[1], parts[2]))
  }

  lemma SafeClean(s: string)
    requires AllSafe(s)
    ensures Clean(s, DELIMITER) && !Contains(s, DELIMITER)
  {
    CleanNoChar(s, DELIMITER);
  }

  lemma SplitThree(a: string, b: string, c: string)
    requires AllSafe(a) && AllSafe(b) && AllSafe(c)
    ensures Split(Join([a, b, c], DELIMITER), DELIMITER) == [a, b, c]
  {
    SafeClean(a);
    SafeClean(b);
    SafeClean(c);
    SplitJoin([a, b, c], DELIMITER);
  }

  lemma ParseJoin(a: string, b: string, c: string)
    requires AllSafe(a) && AllSafe(b) && AllSafe(c)
    ensures Parse(Join([a, b, c], DELIMITER)) == Ok((a, b, c))
  {
    SplitThree(a, b, c);
  }

  /** A made id parses back into its three sanitized segments, whatever the inputs. */
  lemma ParseMake(sessionId: string, userTag: Option<string>, uuid: string)
    ensures Parse(Make(sessionId, userTag, uuid))
         == Ok((SessionSegment(sessionId), TagSegment(userTag), SessionSegment(uuid)))
  {
    ParseJoin(SessionSegment(sessionId), TagSegment(userTag), SessionSegment(uuid));
  }

  /** A malformed id is left to the audit miss; a foreign session is refused. */
  function CheckOwnership(sessionId: string, id: string): Option<ErrorType> {
    match Parse(id)
    case Err(_) => None
    case Ok(segments) => if segments.0 != SessionSegment(sessionId) then Some(Forbidden) else None
  }

  /** A session may use a made id iff the id was made by a session with the same segment. */
  lemma OwnershipExact(me: string, sessionId: string, userTag: Option<string>, uuid: string)
    ensures CheckOwnership(me, Make(sessionId, userTag, uuid)).None?
       <==> SessionSegment(sessionId) == SessionSegment(me)
  {
    ParseMake(sessionId, userTag, uuid);
    OwnershipOf(me, Make(sessionId, userTag, uuid), SessionSegment(sessionId));
  }

  lemma OwnershipOf(me: string, id: string, session: string)
    requires Parse(id).Ok? && Parse(id).value.0 == session
    ensures CheckOwnership(me, id).None? <==> session == SessionSegment(me)
  {
  }
}
