// What the statement normalizer recognizes, said without its scanners: a word of a statement, the
// SET clauses it takes off, and the body that is left (statement_guard.py).

module StatementParts {
  import opened Basics
  import opened Text
  import opened StatementGuard

  // ---- words -----------------------------------------------------------------------------------

  /** The letter in either case; the long s and the two Turkish i fold to s and i. */
  predicate Spells(c: char, l: char) {
    c == l || c as int == l as int - 32 || (l == 's' && c == '\U{17F}') || (l == 'i' && (c == '\U{130}' || c == '\U{131}'))
  }

  predicate SpellsAll(m: string, w: string) {
    |m| == |w| && forall k :: 0 <= k < |w| ==> Spells(m[k], w[k])
  }

  predicate Lowercase(w: string) {
    w != "" && forall k :: 0 <= k < |w| ==> 'a' <= w[k] <= 'z'
  }

  /** s is a, then m, then b, where m spells the word and neither neighbour of m is a word character. */
  predicate WordBetween(s: string, a: string, m: string, b: string, w: string, isWord: char -> bool) {
    && s == a + m + b && SpellsAll(m, w)
    && (a == "" || !isWord(a[|a| - 1])) && (b == "" || !isWord(b[0]))
  }

  ghost predicate SaysWord(s: string, w: string, isWord: char -> bool) {
    exists a: string, m: string, b: string :: WordBetween(s, a, m, b, w, isWord)
  }

  /** A statement has a lower-case word iff it spells it somewhere between two word boundaries. */
  lemma WordExact(s: string, w: string, isWord: char -> bool)
    requires Lowercase(w)
    ensures HasWord(s, w, isWord) <==> SaysWord(s, w, isWord)
  {
    if HasWord(s, w, isWord) {
      WordSaid(s, w, isWord);
    }
    if SaysWord(s, w, isWord) {
      SaidWord(s, w, isWord);
    }
  }

  lemma WordSaid(s: string, w: string, isWord: char -> bool)
    requires Lowercase(w) && HasWord(s, w, isWord)
    ensures SaysWord(s, w, isWord)
  {
    var i: nat :| i <= |s| && WordAt(s, i, w, isWord);
    WordParts(s, i, w, isWord);
  }

  lemma SaidWord(s: string, w: string, isWord: char -> bool)
    requires Lowercase(w) && SaysWord(s, w, isWord)
    ensures HasWord(s, w, isWord)
  {
    var a: string, m: string, b: string :| WordBetween(s, a, m, b, w, isWord);
    PartsWord(s, a, m, b, w, isWord);
  }

  lemma WordParts(s: string, i: nat, w: string, isWord: char -> bool)
    requires Lowercase(w) && WordAt(s, i, w, isWord)
    ensures SaysWord(s, w, isWord)
  {
    var a, m, b := s[..i], s[i..i + |w|], s[i + |w|..];
    SpelledAt(s, i, m, w);
    assert s == a + m + b;
    assert WordBetween(s, a, m, b, w, isWord);
  }

  lemma SpelledAt(s: string, i: nat, m: string, w: string)
    requires Lowercase(w) && FoldAt(s, i, w) && m == s[i..i + |w|]
    ensures SpellsAll(m, w)
  {
    forall k | 0 <= k < |w| ensures Spells(m[k], w[k]) {
      assert FoldsTo(s[i + k], w[k]);
    }
  }

  lemma PartsWord(s: string, a: string, m: string, b: string, w: string, isWord: char -> bool)
    requires Lowercase(w) && WordBetween(s, a, m, b, w, isWord)
    ensures HasWord(s, w, isWord)
  {
    var i := |a|;
    forall k | 0 <= k < |w| ensures FoldsTo(s[i + k], w[k]) {
      assert s[i + k] == m[k] && Spells(m[k], w[k]);
    }
    assert i > 0 ==> s[i - 1] == a[i - 1];
    assert i + |w| < |s| ==> s[i + |w|] == b[0];
    assert WordAt(s, i, w, isWord);
  }

  /** A statement starts with a lower-case word iff its first letters are that word's, in either case. */
  lemma StartExact(s: string, w: string)
    requires Lowercase(w)
    ensures LowerAt(s, w) <==> |w| <= |s| && forall k :: 0 <= k < |w| ==> s[k] == w[k] || s[k] as int == w[k] as int - 32
  {
  }

  // ---- the SET clauses taken off --------------------------------------------------------------------

  /** A whole text that is one SET clause, with the blanks in front of it and behind it. */
  ghost predicate IsClause(c: string) {
    exists i: nat, k: nat, m: nat :: SetMatch(c, i, k, m, |c|)
  }

  function Concat(parts: seq<string>): string {
    if parts == [] then "" else parts[0] + Concat(parts[1..])
  }

  lemma ClauseOf(core: string, e: nat)
    requires SetEnd(core) == Some(e)
    ensures IsClause(core[..e]) && (e < |core| ==> !IsSpace(core[e]))
  {
    SetEndExact(core, e);
    var i: nat, k: nat, m: nat :| SetMatch(core, i, k, m, e);
    MatchPrefix(core, i, k, m, e);
  }

  lemma MatchPrefix(core: string, i: nat, k: nat, m: nat, e: nat)
    requires SetMatch(core, i, k, m, e)
    ensures SetMatch(core[..e], i, k, m, e)
  {
    var c := core[..e];
    assert forall x :: 0 <= x < e ==> c[x] == core[x];
    forall x | 0 <= x < 3 ensures FoldsTo(c[i + x], "set"[x]) {
      assert c[i + x] == core[i + x] && FoldsTo(core[i + x], "set"[x]);
    }
  }

  lemma NothingToStrip(s: string, p: char -> bool)
    requires s == "" || !p(s[0])
    ensures LStrip(s, p) == s
  {
  }

  lemma LoopStep(core: string, e: nat)
    requires SetEnd(core) == Some(e)
    ensures StripLoop(core) == StripLoop(core[e..])
  {
    ClauseOf(core, e);
    NothingToStrip(core[e..], IsSpace);
  }

  /** core is these SET clauses and then rest. */
  ghost predicate Taken(core: string, clauses: seq<string>, rest: string) {
    core == Concat(clauses) + rest && forall k :: 0 <= k < |clauses| ==> IsClause(clauses[k])
  }

  lemma {:induction false} ClausesOf(core: string) returns (clauses: seq<string>)
    ensures Taken(core, clauses, StripLoop(core))
    decreases |core|
  {
    match SetEnd(core)
    case None =>
      clauses := [];
      NoneTaken(core);
    case Some(e) =>
      var rest := ClausesOf(core[e..]);
      ClauseOf(core, e);
      LoopStep(core, e);
      clauses := [core[..e]] + rest;
      OneTaken(core, e, rest, StripLoop(core[e..]));
  }

  lemma NoneTaken(core: string)
    requires SetEnd(core).None?
    ensures Taken(core, [], StripLoop(core))
  {
    assert Concat([]) + core == core;
  }

  lemma OneTaken(core: string, e: nat, clauses: seq<string>, rest: string)
    requires e <= |core| && IsClause(core[..e]) && Taken(core[e..], clauses, rest)
    ensures Taken(core, [core[..e]] + clauses, rest)
  {
    assert ([core[..e]] + clauses)[1..] == clauses;
    assert core == core[..e] + core[e..];
  }

  /** Exactly SET clauses come off the front of the stripped statement, until no more is there. */
  lemma ClausesExact(statement: string) returns (clauses: seq<string>)
    ensures Taken(Strip(statement, IsSpace), clauses, StripSet(statement))
    ensures forall i: nat, k: nat, m: nat, e: nat :: !SetMatch(StripSet(statement), i, k, m, e)
  {
    clauses := ClausesOf(Strip(statement, IsSpace));
    StripLoopSettled(Strip(statement, IsSpace));
    forall i: nat, k: nat, m: nat, e: nat ensures !SetMatch(StripSet(statement), i, k, m, e) {
      SetEndExact(StripSet(statement), e);
    }
  }

  // ---- the body ------------------------------------------------------------------------------------

  predicate Blank(s: string) {
    forall i :: 0 <= i < |s| ==> IsSpace(s[i])
  }

  /** What is left without its SET clauses is the body, blanks, at most one ";" and blanks. */
  lemma BodyExact(statement: string) returns (gap: string, close: string, tail: string)
    ensures StripSet(statement) == Body(statement) + gap + close + tail && Blank(gap) && Blank(tail)
    ensures close == ";" || (close == "" && gap == "" && !EndsWithSemicolon(Body(statement)))
    ensures Body(statement) != "" ==> !IsSpace(Body(statement)[|Body(statement)| - 1])
  {
    var t := StripSet(statement);
    BodyPrefix(statement);
    tail := RStripParts(t, IsSpace);
    gap, close := SemicolonParts(RStrip(t, IsSpace));
  }

  lemma SemicolonParts(r: string) returns (gap: string, close: string)
    requires r != "" ==> !IsSpace(r[|r| - 1])
    ensures r == WithoutSemicolon(r) + gap + close && Blank(gap)
    ensures close == ";" || (close == "" && gap == "" && !EndsWithSemicolon(WithoutSemicolon(r)))
  {
    gap, close := "", "";
    if EndsWithSemicolon(r) {
      close := ";";
      gap := RStripParts(r[..|r| - 1], IsSpace);
      assert r == r[..|r| - 1] + ";";
    }
  }
}
