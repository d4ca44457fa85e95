// statement_guard.py: stripping leading SET clauses and bounding a SELECT.
//
// The word class of the regex \b depends on Unicode tables, so it is the parameter
// isWord; the proofs only need that a space is not a word character.

module StatementGuard {
  import opened Basics
  import opened Text

  /** c matches the ASCII letter l under (?i), including the non-ASCII letters that fold to it. */
  predicate FoldsTo(c: char, l: char) {
    || c == l
    || ('a' <= l <= 'z' && 'A' <= c <= 'Z' && c as int + 32 == l as int)
    || (l == 's' && c == '\U{17F}')
    || (l == 'i' && (c == '\U{130}' || c == '\U{131}'))
  }

  predicate FoldAt(s: string, i: nat, w: string) {
    i + |w| <= |s| && forall k :: 0 <= k < |w| ==> FoldsTo(s[i + k], w[k])
  }

  /** s[i..] starts with w when both are lower-cased (str.lower on ASCII letters). */
  predicate LowerAt(s: string, w: string) {
    |w| <= |s| && forall k :: 0 <= k < |w| ==>
      s[k] == w[k] || ('a' <= w[k] <= 'z' && 'A' <= s[k] <= 'Z' && s[k] as int + 32 == w[k] as int)
  }

  /** The regex \bw\b matches at i. */
  predicate WordAt(s: string, i: nat, w: string, isWord: char -> bool) {
    && FoldAt(s, i, w)
    && (i == 0 || !isWord(s[i - 1]))
    && (i + |w| == |s| || !isWord(s[i + |w|]))
  }

  predicate HasWord(s: string, w: string, isWord: char -> bool) {
    exists i: nat :: i <= |s| && WordAt(s, i, w, isWord)
  }

  function SpacesEnd(s: string, k: nat): (e: nat)
    requires k <= |s|
    ensures k <= e <= |s| && (e < |s| ==> !IsSpace(s[e]))
    ensures forall i :: k <= i < e ==> IsSpace(s[i])
    decreases |s| - k
  {
    if k < |s| && IsSpace(s[k]) then SpacesEnd(s, k + 1) else k
  }

  /** End of the match of (?i)^\s*set\s+[^;]+;\s* on core, if there is one. */
  function SetEnd(core: string): (r: Option<nat>)
    ensures r.Some? ==> 5 < r.value <= |core|
  {
    var i := SpacesEnd(core, 0);
    if FoldAt(core, i, "set") && i + 3 < |core| && IsSpace(core[i + 3]) then
      var m := FirstChar(core, ';', i + 3);
      if m < |core| && i + 5 <= m then Some(SpacesEnd(core, m + 1)) else None
    else None
  }

  /** The match itself: i, k, m and e end the groups \s*, set\s+, [^;]+ and ;\s*. */
  ghost predicate SetMatch(core: string, i: nat, k: nat, m: nat, e: nat) {
    && i + 3 < k < m < e <= |core|
    && (forall x :: 0 <= x < i ==> IsSpace(core[x]))
    && FoldAt(core, i, "set")
    && (forall x :: i + 3 <= x < k ==> IsSpace(core[x]))
    && (forall x :: k <= x < m ==> core[x] != ';')
    && core[m] == ';'
    && (forall x :: m < x < e ==> IsSpace(core[x]))
    && (e < |core| ==> !IsSpace(core[e]))
  }

  /** SetEnd finds a match iff the regex has one, and then it is that match's end. */
  lemma SetEndExact(core: string, e: nat)
    ensures SetEnd(core) == Some(e) <==> exists i: nat, k: nat, m: nat :: SetMatch(core, i, k, m, e)
  {
    if SetEnd(core) == Some(e) {
      var i := SpacesEnd(core, 0);
      var m := FirstChar(core, ';', i + 3);
      assert SetMatch(core, i, i + 4, m, e);
    }
    if i: nat, k: nat, m: nat :| SetMatch(core, i, k, m, e) {
      SetMatchIs(core, i, k, m, e);
    }
  }

  lemma SetMatchIs(core: string, i: nat, k: nat, m: nat, e: nat)
    requires SetMatch(core, i, k, m, e)
    ensures SetEnd(core) == Some(e)
  {
    assert FoldsTo(core[i + 0], "set"[0]);
    assert SpacesEnd(core, 0) == i;
    assert IsSpace(core[i + 3]);
    assert FirstChar(core, ';', i + 3) == m;
    assert SpacesEnd(core, m + 1) == e;
  }

  // ---- strip_set_prefix ------------------------------------------------------

  function StripLoop(core: string): string
    decreases |core|
  {
    match SetEnd(core)
    case None => core
    case Some(e) => StripLoop(LStrip(core[e..], IsSpace))
  }

  function StripSet(statement: string): string {
    StripLoop(Strip(statement, IsSpace))
  }

  /** The loop of strip_set_prefix ends and computes StripSet. */
  method StripSetPrefix(statement: string) returns (core: string)
    ensures core == StripSet(statement)
  {
    core := Strip(statement, IsSpace);
    while true
      invariant StripLoop(core) == StripSet(statement)
      decreases |core|
    {
      var e := SetEnd(core);
      if e.None? {
        return;
      }
      core := LStrip(core[e.value..], IsSpace);
    }
  }

  /** What is left starts with no SET clause and no whitespace. */
  lemma {:induction false} StripLoopSettled(core: string)
    requires core != "" ==> !IsSpace(core[0])
    ensures SetEnd(StripLoop(core)).None?
    ensures StripLoop(core) != "" ==> !IsSpace(StripLoop(core)[0])
    decreases |core|
  {
    if SetEnd(core).Some? {
      StripLoopSettled(LStrip(core[SetEnd(core).value..], IsSpace));
    }
  }

  // ---- normalize_statement -----------------------------------------------------

  predicate EndsWithSemicolon(s: string) {
    s != "" && s[|s| - 1] == ';'
  }

  /** The statement body: SET clauses, one closing ";" and outer whitespace removed. */
  function Body(statement: string): string {
    WithoutSemicolon(RStrip(StripSet(statement), IsSpace))
  }

  function WithoutSemicolon(r: string): (b: string)
    requires r != "" ==> !IsSpace(r[|r| - 1])
    ensures b <= r && (b != "" ==> !IsSpace(b[|b| - 1]))
  {
    if EndsWithSemicolon(r) then RStrip(r[..|r| - 1], IsSpace) else r
  }

  predicate NeedsLimit(body: string, isWord: char -> bool) {
    LowerAt(body, "select") && HasWord(body, "from", isWord) && !HasWord(body, "limit", isWord)
  }

  function Bounded(body: string, limit: nat, isWord: char -> bool): string {
    if NeedsLimit(body, isWord) then body + " LIMIT " + Decimal(limit) else body
  }

  function Normalize(statement: string, limit: nat, isWord: char -> bool): string {
    var body := Body(statement);
    if body == "" then statement else Bounded(body, limit, isWord) + ";"
  }

  /** normalize_statement as it is written: core reassigned step by step. */
  method NormalizeStatement(statement: string, limit: nat, isWord: char -> bool) returns (r: string)
    ensures r == Normalize(statement, limit, isWord)
  {
    var core := StripSetPrefix(statement);
    core := RStrip(core, IsSpace);
    if EndsWithSemicolon(core) {
      core := RStrip(core[..|core| - 1], IsSpace);
    }
    if core == "" {
      return statement;
    }
    if LowerAt(core, "select") && HasWord(core, "from", isWord) && !HasWord(core, "limit", isWord) {
      core := core + " LIMIT " + Decimal(limit);
    }
    r := core + ";";
  }

  /** The body is a prefix of the stripped statement, with no whitespace at its ends. */
  lemma BodyPrefix(statement: string)
    ensures Body(statement) <= StripSet(statement)
    ensures Trimmed(Body(statement), IsSpace)
    ensures SetEnd(StripSet(statement)).None?
  {
    StripLoopSettled(Strip(statement, IsSpace));
    ClosedPrefix(StripSet(statement));
  }

  lemma ClosedPrefix(t: string)
    requires t != "" ==> !IsSpace(t[0])
    ensures var b := WithoutSemicolon(RStrip(t, IsSpace)); b <= t && Trimmed(b, IsSpace)
  {
    PrefixTrimmed(t, RStrip(t, IsSpace), WithoutSemicolon(RStrip(t, IsSpace)));
  }

  lemma PrefixTrimmed(t: string, r: string, b: string)
    requires b <= r <= t && (t != "" ==> !IsSpace(t[0])) && (b != "" ==> !IsSpace(b[|b| - 1]))
    ensures b <= t && Trimmed(b, IsSpace)
  {
    if b != "" {
      assert b[0] == r[0] == t[0];
    }
  }

  /** Appending ";" to a body makes no SET match, or turns the whole string into one. */
  lemma SemicolonAppended(t: string, b: string)
    requires b <= t && b != "" && !IsSpace(b[0]) && SetEnd(t).None?
    ensures SetEnd(b + ";").None? || SetEnd(b + ";") == Some(|b| + 1)
  {
    var x := b + ";";
    assert b == t[..|b|];
    assert SpacesEnd(x, 0) == 0 && SpacesEnd(t, 0) == 0;
    if SetEnd(x).Some? {
      assert forall k :: 0 <= k < 3 ==> FoldsTo(x[0 + k], "set"[k]);
      assert FirstChar(x, ';', 3) == |b|;
    }
  }

  /** A trimmed text with no SET clause in front is its own body once ";" closes it. */
  lemma BodyOfClosed(b: string)
    requires b != "" && Trimmed(b, IsSpace) && SetEnd(b + ";").None?
    ensures Body(b + ";") == b
  {
    var x := b + ";";
    assert x[0] == b[0];
    StripTrimmed(x, IsSpace);
    assert x[..|x| - 1] == b;
  }

  lemma BodyOfSetClause(x: string)
    requires Trimmed(x, IsSpace) && SetEnd(x) == Some(|x|)
    ensures Body(x) == ""
  {
    StripTrimmed(x, IsSpace);
    assert x[|x|..] == "";
    assert StripLoop("") == "";
  }

  lemma SelectIsNotSet(b: string)
    requires LowerAt(b, "select")
    ensures SetEnd(b).None?
  {
    assert b[2] == "select"[2] || b[2] as int + 32 == "select"[2] as int;
    assert b[0] == "select"[0] || b[0] as int + 32 == "select"[0] as int;
    assert SpacesEnd(b, 0) == 0;
    assert FoldAt(b, 0, "set") ==> FoldsTo(b[0 + 2], "set"[2]);
  }

  lemma AppendedLimit(body: string, limit: nat, isWord: char -> bool)
    requires !isWord(' ')
    ensures HasWord(body + " LIMIT " + Decimal(limit), "limit", isWord)
  {
    var x := body + " LIMIT " + Decimal(limit);
    var i, gap := |body| + 1, " LIMIT ";
    assert x == body + (gap + Decimal(limit));
    assert forall k :: 0 <= k < 7 ==> x[|body| + k] == gap[k];
    assert gap[0] == ' ' && gap[6] == ' ';
    forall k | 0 <= k < 5 ensures FoldsTo(x[i + k], "limit"[k]) {
      assert x[|body| + (k + 1)] == gap[k + 1];
    }
    assert WordAt(x, i, "limit", isWord);
  }

  /** Bounding a body keeps it trimmed and leaves nothing more to bound. */
  lemma BoundedStable(body: string, limit: nat, isWord: char -> bool)
    requires !isWord(' ') && body != "" && Trimmed(body, IsSpace)
    ensures Trimmed(Bounded(body, limit, isWord), IsSpace)
    ensures Bounded(body, limit, isWord) != "" && Bounded(Bounded(body, limit, isWord), limit, isWord)
         == Bounded(body, limit, isWord)
  {
    if NeedsLimit(body, isWord) {
      AppendedLimit(body, limit, isWord);
      var x, d := body + " LIMIT " + Decimal(limit), Decimal(limit);
      assert x[0] == body[0];
      assert x[|x| - 1] == d[|d| - 1];
    }
  }

  /** The closed, bounded body normalizes to itself, even when ";" makes it a SET clause. */
  lemma ClosedStable(t: string, body: string, limit: nat, isWord: char -> bool)
    requires !isWord(' ') && body != "" && Trimmed(body, IsSpace) && body <= t && SetEnd(t).None?
    ensures Normalize(Bounded(body, limit, isWord) + ";", limit, isWord) == Bounded(body, limit, isWord) + ";"
  {
    BoundedStable(body, limit, isWord);
    var c := Bounded(body, limit, isWord);
    var x := c + ";";
    assert x[0] == c[0] && x[|x| - 1] == ';';
    if NeedsLimit(body, isWord) {
      assert LowerAt(x, "select");
      SelectIsNotSet(x);
    } else {
      SemicolonAppended(t, c);
    }
    if SetEnd(x).None? {
      BodyOfClosed(c);
    } else {
      BodyOfSetClause(x);
    }
  }

  /** Normalizing twice is normalizing once, for every statement and limit. */
  lemma NormalizeIdempotent(statement: string, limit: nat, isWord: char -> bool)
    requires !isWord(' ')
    ensures Normalize(Normalize(statement, limit, isWord), limit, isWord) == Normalize(statement, limit, isWord)
  {
    if Body(statement) != "" {
      BodyPrefix(statement);
      ClosedStable(StripSet(statement), Body(statement), limit, isWord);
    }
  }

  /**
   * What Normalize makes of a body, unless stripping left nothing: a SELECT with a FROM and no
   * LIMIT gets one that spells the limit, any other body is only closed, and no body is cut.
   */
  lemma SelectIsBounded(b: string, limit: nat, isWord: char -> bool) returns (digits: string)
    requires !isWord(' ') && !isWord(';')
    ensures Numeral(digits, limit)
    ensures LowerAt(b, "select") && HasWord(b, "from", isWord) && !HasWord(b, "limit", isWord) ==>
      forall statement :: Body(statement) == b != "" ==> Normalize(statement, limit, isWord) == b + " LIMIT " + digits + ";"
    ensures forall statement :: Body(statement) == b != "" ==> Normalize(statement, limit, isWord) == Bounded(b, limit, isWord) + ";"
    ensures b <= Bounded(b, limit, isWord)
    ensures LowerAt(b, "select") && HasWord(b, "from", isWord) ==> HasWord(Bounded(b, limit, isWord) + ";", "limit", isWord)
    ensures !LowerAt(b, "select") || !HasWord(b, "from", isWord) || HasWord(b, "limit", isWord) ==> Bounded(b, limit, isWord) == b
  {
    digits := Decimal(limit);
    DecimalExact(digits, limit);
    if LowerAt(b, "select") && HasWord(b, "from", isWord) {
      if NeedsLimit(b, isWord) {
        AppendedLimit(b, limit, isWord);
      }
      WordKept(Bounded(b, limit, isWord), "limit", isWord);
    }
  }

  lemma WordKept(s: string, w: string, isWord: char -> bool)
    requires !isWord(';') && HasWord(s, w, isWord)
    ensures HasWord(s + ";", w, isWord)
  {
    var i: nat :| i <= |s| && WordAt(s, i, w, isWord);
    assert forall k :: i <= k < i + |w| ==> (s + ";")[k] == s[k];
    assert WordAt(s + ";", i, w, isWord);
  }
}
