// The string operations the memory layers are written with: strip, find, split,
// join and splitlines, with the laws that connect them.

module Text {
  import opened Basics

  // ---- character classes --------------------------------------------------

  /** str.isspace for one character; also what the regex class \s matches. */
  predicate IsSpace(c: char) {
    || '\t' <= c <= '\r' || '\U{1C}' <= c <= ' ' || c == '\U{85}' || c == '\U{A0}' || c == '\U{1680}'
    || '\U{2000}' <= c <= '\U{200A}' || c == '\U{2028}' || c == '\U{2029}' || c == '\U{202F}'
    || c == '\U{205F}' || c == '\U{3000}'
  }

  /** The characters str.splitlines breaks at. */
  predicate IsBreak(c: char) {
    || '\n' <= c <= '\r' || '\U{1C}' <= c <= '\U{1E}' || c == '\U{85}' || c == '\U{2028}' || c == '\U{2029}'
  }

  predicate IsNewline(c: char) {
    c == '\n'
  }

  predicate NoBreaks(s: string) {
    forall i :: 0 <= i < |s| ==> !IsBreak(s[i])
  }

  /** Every line break in s is a plain "\n". */
  predicate OnlyNewlines(s: string) {
    forall i :: 0 <= i < |s| && IsBreak(s[i]) ==> s[i] == '\n'
  }

  lemma Assoc(a: string, b: string, c: string)
    ensures (a + b) + c == a + (b + c)
  {
  }

  lemma ConsTail<T>(s: seq<T>, r: seq<T>)
    requires s != []
    ensures [s[0]] + (s[1..] + r) == s + r
    ensures [s[0]] + s[1..] == s
  {
  }

  lemma ConsPrefix<T>(s: seq<T>, a: seq<T>, b: seq<T>)
    requires s != [] && s[1..] == a + b
    ensures s == ([s[0]] + a) + b
  {
    assert s == [s[0]] + s[1..];
  }

  // ---- strip ---------------------------------------------------------------

  /** s.lstrip of the characters in p: the longest suffix not starting with one. */
  function LStrip(s: string, p: char -> bool): (r: string)
    ensures |r| <= |s| && r == s[|s| - |r|..]
    ensures forall i {:trigger p(s[i])} :: 0 <= i < |s| - |r| ==> p(s[i])
    ensures r != "" ==> !p(r[0])
  {
    if s != "" && p(s[0]) then
      var r := LStrip(s[1..], p);
      assert r == s[|s| - |r|..];
      r
    else s
  }

  /** s.rstrip of the characters in p: the longest prefix not ending with one. */
  function RStrip(s: string, p: char -> bool): (r: string)
    ensures |r| <= |s| && r == s[..|r|]
    ensures forall i {:trigger p(s[i])} :: |r| <= i < |s| ==> p(s[i])
    ensures r != "" ==> !p(r[|r| - 1])
  {
    if s != "" && p(s[|s| - 1]) then RStrip(s[..|s| - 1], p) else s
  }

  function Strip(s: string, p: char -> bool): (r: string)
    ensures |r| <= |s| && Trimmed(r, p)
  {
    RStrip(LStrip(s, p), p)
  }

  /** s has no character of p at either end. */
  predicate Trimmed(s: string, p: char -> bool) {
    s != "" ==> !p(s[0]) && !p(s[|s| - 1])
  }

  /** A string with p-characters around a trimmed middle strips to the middle. */
  lemma {:induction false} LStripPrefix(a: string, s: string, p: char -> bool)
    requires forall i :: 0 <= i < |a| ==> p(a[i])
    ensures LStrip(a + s, p) == LStrip(s, p)
  {
    if a == "" {
      assert a + s == s;
    } else {
      assert (a + s)[0] == a[0];
      assert (a + s)[1..] == a[1..] + s;
      LStripPrefix(a[1..], s, p);
    }
  }

  lemma {:induction false} RStripSuffix(s: string, b: string, p: char -> bool)
    requires forall i :: 0 <= i < |b| ==> p(b[i])
    ensures RStrip(s + b, p) == RStrip(s, p)
  {
    if b == "" {
      assert s + b == s;
    } else {
      assert (s + b)[|s + b| - 1] == b[|b| - 1];
      assert (s + b)[..|s + b| - 1] == s + b[..|b| - 1];
      RStripSuffix(s, b[..|b| - 1], p);
    }
  }

  lemma StripAround(a: string, s: string, b: string, p: char -> bool)
    requires Trimmed(s, p)
    requires forall i :: 0 <= i < |a| ==> p(a[i])
    requires forall i :: 0 <= i < |b| ==> p(b[i])
    ensures Strip(a + s + b, p) == s
  {
    assert a + s + b == a + (s + b);
    LStripPrefix(a, s + b, p);
    StripBefore(s, b, p);
  }

  lemma StripBefore(s: string, b: string, p: char -> bool)
    requires Trimmed(s, p)
    requires forall i :: 0 <= i < |b| ==> p(b[i])
    ensures RStrip(LStrip(s + b, p), p) == s
  {
    if s == "" {
      assert s + b == b + "";
      LStripPrefix(b, "", p);
    } else {
      assert (s + b)[0] == s[0];
      RStripSuffix(s, b, p);
    }
  }

  lemma StrippedIsTrimmed(s: string, p: char -> bool)
    ensures Trimmed(Strip(s, p), p)
  {
  }

  lemma StripTrimmed(s: string, p: char -> bool)
    requires Trimmed(s, p)
    ensures Strip(s, p) == s
  {
    assert "" + s + "" == s;
    StripAround("", s, "", p);
  }

  /** Every string is stripped text between two runs of stripped characters. */
  lemma StripParts(s: string, p: char -> bool) returns (a: string, b: string)
    ensures s == a + (Strip(s, p) + b)
    ensures forall i :: 0 <= i < |a| ==> p(a[i])
    ensures forall i :: 0 <= i < |b| ==> p(b[i])
  {
    var l := LStrip(s, p);
    a := LStripParts(s, p);
    b := RStripParts(l, p);
  }

  lemma LStripParts(s: string, p: char -> bool) returns (a: string)
    ensures s == a + LStrip(s, p)
    ensures forall i :: 0 <= i < |a| ==> p(a[i])
  {
    var l := LStrip(s, p);
    a := s[..|s| - |l|];
  }

  lemma RStripParts(s: string, p: char -> bool) returns (b: string)
    ensures s == RStrip(s, p) + b
    ensures forall i :: 0 <= i < |b| ==> p(b[i])
  {
    var r := RStrip(s, p);
    b := s[|r|..];
    forall i | 0 <= i < |b| ensures p(b[i]) {
      assert b[i] == s[|r| + i];
    }
  }

  lemma LastStays(s: string, p: char -> bool)
    requires s != "" && !p(s[|s| - 1])
    ensures LStrip(s, p) != "" && LStrip(s, p)[|LStrip(s, p)| - 1] == s[|s| - 1]
    ensures Strip(s, p) == LStrip(s, p)
  {
  }

  lemma RStripKeeps(a: string, b: string, p: char -> bool)
    requires RStrip(b, p) != ""
    ensures RStrip(a + b, p) == a + RStrip(b, p)
  {
    var q := RStrip(b, p);
    var tail := RStripParts(b, p);
    Assoc(a, q, tail);
    RStripSuffix(a + q, tail, p);
    assert (a + q)[|a + q| - 1] == q[|q| - 1];
  }

  /** Stripping around a text that ends in a keeper strips only its front. */
  lemma StripFront(a: string, q: string, b: string, p: char -> bool)
    requires q != "" && !p(q[|q| - 1])
    requires forall i :: 0 <= i < |a| ==> p(a[i])
    requires forall i :: 0 <= i < |b| ==> p(b[i])
    ensures Strip(a + q + b, p) == LStrip(q, p)
  {
    Assoc(a, q, b);
    LStripPrefix(a, q + b, p);
    StripTail(q, b, p);
    LastStays(q, p);
  }

  lemma StripTail(s: string, tail: string, p: char -> bool)
    requires s != "" && !p(s[|s| - 1])
    requires forall i :: 0 <= i < |tail| ==> p(tail[i])
    ensures Strip(s + tail, p) == Strip(s, p)
  {
    LastStays(s, p);
    var head := LStripParts(s, p);
    Assoc(head, LStrip(s, p), tail);
    StripAround(head, LStrip(s, p), tail, p);
  }

  // ---- find, contains, replace ----------------------------------------------

  predicate OccursAt(s: string, w: string, i: nat) {
    i + |w| <= |s| && s[i..i + |w|] == w
  }

  /** First position of the character c at or after k, or |s|. */
  function FirstChar(s: string, c: char, k: nat): (m: nat)
    requires k <= |s|
    ensures k <= m <= |s| && (m < |s| ==> s[m] == c)
    ensures forall i :: k <= i < m ==> s[i] != c
    decreases |s| - k
  {
    if k == |s| || s[k] == c then k else FirstChar(s, c, k + 1)
  }

  predicate Contains(s: string, w: string) {
    exists i: nat :: i <= |s| && OccursAt(s, w, i)
  }

  predicate StartsWith(s: string, w: string) {
    OccursAt(s, w, 0)
  }

  lemma OccursHead(s: string, w: string, j: nat)
    requires w != ""
    ensures OccursAt(s, w, j) ==> j < |s| && s[j] == w[0]
  {
  }

  lemma SliceSlice<T>(s: seq<T>, lo: nat, hi: nat, i: nat, j: nat)
    requires lo <= hi <= |s| && i <= j <= hi - lo
    ensures s[lo..hi][i..j] == s[lo + i..lo + j]
  {
    var a, b := s[lo..hi][i..j], s[lo + i..lo + j];
    assert |a| == |b|;
    forall k | 0 <= k < |a| ensures a[k] == b[k] {
      assert a[k] == s[lo..hi][i + k] == s[lo + i + k];
      assert b[k] == s[lo + i + k];
    }
  }

  lemma OccursSlice(s: string, w: string, lo: nat, hi: nat, j: nat)
    requires lo <= hi <= |s|
    ensures OccursAt(s[lo..hi], w, j) ==> OccursAt(s, w, lo + j)
    ensures OccursAt(s, w, lo + j) && lo + j + |w| <= hi ==> OccursAt(s[lo..hi], w, j)
  {
    if lo + j + |w| <= hi {
      SliceSlice(s, lo, hi, j, j + |w|);
    }
  }

  lemma OccursTail(s: string, w: string)
    requires s != ""
    ensures forall j: nat :: OccursAt(s[1..], w, j) ==> OccursAt(s, w, j + 1)
    ensures forall j: nat :: j > 0 && OccursAt(s, w, j) ==> OccursAt(s[1..], w, j - 1)
  {
    assert s[1..|s|] == s[1..];
    forall j: nat | OccursAt(s[1..], w, j) ensures OccursAt(s, w, j + 1) {
      OccursSlice(s, w, 1, |s|, j);
    }
    forall j: nat | j > 0 && OccursAt(s, w, j) ensures OccursAt(s[1..], w, j - 1) {
      OccursSlice(s, w, 1, |s|, j - 1);
    }
  }

  /** str.find: the first position of w in s. */
  function Find(s: string, w: string): (r: Option<nat>)
    ensures r.Some? ==> OccursAt(s, w, r.value) && forall j: nat :: j < r.value ==> !OccursAt(s, w, j)
    ensures r.None? ==> forall j: nat :: !OccursAt(s, w, j)
  {
    if |s| < |w| then None
    else if s[..|w|] == w then Some(0)
    else
      OccursTail(s, w);
      match Find(s[1..], w)
      case None => None
      case Some(i) => Some(i + 1)
  }

  /** The position Find returns is determined by being the first. */
  lemma FindIs(s: string, w: string, i: nat)
    requires OccursAt(s, w, i)
    requires forall j: nat :: j < i ==> !OccursAt(s, w, j)
    ensures Find(s, w) == Some(i)
  {
  }

  lemma ContainsConcat(a: string, w: string, b: string)
    ensures Contains(a + w + b, w)
  {
    assert (a + w + b)[|a|..|a| + |w|] == w;
    assert OccursAt(a + w + b, w, |a|);
  }

  lemma ContainsParts(s: string, w: string) returns (a: string, b: string)
    requires Contains(s, w)
    ensures s == a + w + b
  {
    var i: nat :| i <= |s| && OccursAt(s, w, i);
    a, b := s[..i], s[i + |w|..];
  }

  lemma ContainsTrans(s: string, t: string, w: string)
    requires Contains(s, t) && Contains(t, w)
    ensures Contains(s, w)
  {
    var a, b := ContainsParts(s, t);
    var c, d := ContainsParts(t, w);
    assert s == (a + c) + w + (d + b);
    ContainsConcat(a + c, w, d + b);
  }

  lemma FindNone(s: string, w: string)
    ensures Contains(s, w) <==> Find(s, w).Some?
  {
    if Find(s, w).Some? {
      assert OccursAt(s, w, Find(s, w).value);
    }
  }

  /** s.replace(old, by): left to right, non-overlapping. */
  function Replace(s: string, old_: string, by_: string): string
    requires old_ != ""
    decreases |s|
  {
    match Find(s, old_)
    case None => s
    case Some(i) => s[..i] + by_ + Replace(s[i + |old_|..], old_, by_)
  }

  lemma ReplaceStep(s: string, before: string, after: string, i: nat)
    requires before != "" && Find(s, before) == Some(i)
    ensures Replace(s, before, after) == s[..i] + after + Replace(s[i + |before|..], before, after)
  {
  }

  predicate IdentifierChar(c: char) {
    'A' <= c <= 'Z' || 'a' <= c <= 'z' || '0' <= c <= '9' || c == '_' || c == '.' || c == '@' || c == '/' || c == '-'
  }

  /** ^[A-Za-z0-9_.@/-]+$ as re.match decides it: "$" also stands before one final newline. */
  predicate Identifier(s: string) {
    var body := if s != "" && s[|s| - 1] == '\n' then s[..|s| - 1] else s;
    body != "" && forall i :: 0 <= i < |body| ==> IdentifierChar(body[i])
  }

  /** What is accepted is an identifier indeed iff it does not end in a newline. */
  lemma IdentifierExact(s: string)
    requires Identifier(s)
    ensures (forall i :: 0 <= i < |s| ==> IdentifierChar(s[i])) <==> s[|s| - 1] != '\n'
  {
    if s[|s| - 1] == '\n' {
      assert !IdentifierChar(s[|s| - 1]);
    }
  }

  /** str() of a number. */
  function Decimal(n: nat): (r: string)
    ensures r != "" && forall i :: 0 <= i < |r| ==> '0' <= r[i] <= '9'
  {
    var digit := ('0' as int + n % 10) as char;
    if n < 10 then [digit] else Decimal(n / 10) + [digit]
  }

  predicate AllDigits(s: string) {
    forall i :: 0 <= i < |s| ==> '0' <= s[i] <= '9'
  }

  /** The number a string of decimal digits spells. */
  function Value(digits: string): nat
    requires AllDigits(digits)
  {
    if digits == "" then 0
    else
      var n := |digits| - 1;
      10 * Value(digits[..n]) + (digits[n] as int - '0' as int)
  }

  /** These digits spell n, without a zero in front. */
  predicate Numeral(digits: string, n: nat) {
    digits != "" && AllDigits(digits) && Value(digits) == n && (digits[0] == '0' ==> |digits| == 1)
  }

  /** str(n) is the one numeral of n. */
  lemma DecimalExact(digits: string, n: nat)
    ensures digits == Decimal(n) <==> Numeral(digits, n)
  {
    DecimalSpells(n);
    if Numeral(digits, n) {
      OneNumeral(digits, n);
    }
  }

  lemma {:induction false} DecimalSpells(n: nat)
    ensures Numeral(Decimal(n), n) && (Decimal(n)[0] == '0' ==> n == 0)
  {
    if n >= 10 {
      var front := Decimal(n / 10);
      DecimalSpells(n / 10);
      assert Decimal(n)[..|front|] == front;
    }
  }

  lemma {:induction false} OneNumeral(digits: string, n: nat)
    requires Numeral(digits, n)
    ensures digits == Decimal(n)
    decreases |digits|
  {
    var k := |digits| - 1;
    if k > 0 {
      LeadingDigit(digits[..k]);
      OneNumeral(digits[..k], Value(digits[..k]));
      LastDigit(digits, n);
    } else {
      assert Value(digits[..0]) == 0 && digits == [digits[0]];
    }
  }

  lemma LastDigit(digits: string, n: nat)
    requires |digits| > 1 && AllDigits(digits) && Value(digits) == n && Value(digits[..|digits| - 1]) > 0
    requires digits[..|digits| - 1] == Decimal(Value(digits[..|digits| - 1]))
    ensures digits == Decimal(n)
  {
    var k := |digits| - 1;
    DigitOf(Value(digits[..k]), digits[k], n);
    assert digits == digits[..k] + [digits[k]];
  }

  lemma DigitOf(front: nat, digit: char, n: nat)
    requires front > 0 && '0' <= digit <= '9' && n == 10 * front + (digit as int - '0' as int)
    ensures n >= 10 && n / 10 == front && ('0' as int + n % 10) as char == digit
  {
  }

  lemma {:induction false} LeadingDigit(digits: string)
    requires digits != "" && AllDigits(digits) && digits[0] != '0'
    ensures Value(digits) > 0
  {
    if |digits| > 1 {
      LeadingDigit(digits[..|digits| - 1]);
    }
  }

  // ---- split and join --------------------------------------------------------

  function Join(parts: seq<string>, sep: string): string {
    if parts == [] then ""
    else if |parts| == 1 then parts[0]
    else parts[0] + sep + Join(parts[1..], sep)
  }

  /** s.split(sep): at each leftmost, non-overlapping occurrence. */
  function Split(s: string, sep: string): (r: seq<string>)
    requires sep != ""
    ensures r != []
    decreases |s|
  {
    match Find(s, sep)
    case None => [s]
    case Some(i) => [s[..i]] + Split(s[i + |sep|..], sep)
  }

  /** Splitting loses nothing: joining the pieces gives the string back. */
  lemma {:induction false} JoinSplit(s: string, sep: string)
    requires sep != ""
    ensures Join(Split(s, sep), sep) == s
    decreases |s|
  {
    match Find(s, sep)
    case None =>
    case Some(i) =>
      var rest := s[i + |sep|..];
      JoinSplit(rest, sep);
      SplitStep(s, sep, i);
      JoinCons(s[..i], Split(rest, sep), sep);
      FoundParts(s, sep, i);
  }

  lemma SplitStep(s: string, sep: string, i: nat)
    requires sep != "" && Find(s, sep) == Some(i)
    ensures Split(s, sep) == [s[..i]] + Split(s[i + |sep|..], sep)
  {
  }

  lemma JoinCons(first: string, rest: seq<string>, sep: string)
    requires rest != []
    ensures Join([first] + rest, sep) == first + sep + Join(rest, sep)
  {
    assert ([first] + rest)[1..] == rest;
  }

  /** part can stand before a separator: the separator found is the one that follows. */
  predicate Clean(part: string, sep: string) {
    Find(part + sep, sep) == Some(|part|)
  }

  /** No piece of a split contains the separator. */
  lemma {:induction false} SplitPieces(s: string, sep: string, k: nat)
    requires sep != "" && k < |Split(s, sep)|
    ensures !Contains(Split(s, sep)[k], sep)
    decreases |s|
  {
    match Find(s, sep)
    case None =>
    case Some(i) =>
      SplitStep(s, sep, i);
      if k == 0 {
        FirstPiece(s, sep, i);
      } else {
        SplitPieces(s[i + |sep|..], sep, k - 1);
      }
  }

  lemma FirstPiece(s: string, sep: string, i: nat)
    requires sep != "" && Find(s, sep) == Some(i)
    ensures !Contains(s[..i], sep)
  {
    forall j: nat ensures !OccursAt(s[..i], sep, j) {
      OccursSlice(s, sep, 0, i, j);
      assert s[0..i] == s[..i];
    }
  }

  lemma FindAfterClean(part: string, sep: string, rest: string)
    requires sep != "" && Clean(part, sep)
    ensures Find(part + sep + rest, sep) == Some(|part|)
  {
    var s := part + sep + rest;
    var t := part + sep;
    assert s[|part|..|part| + |sep|] == sep;
    forall j: nat | j < |part| ensures !OccursAt(s, sep, j) {
      assert !OccursAt(t, sep, j);
      assert s[j..j + |sep|] == t[j..j + |sep|];
    }
    FindIs(s, sep, |part|);
  }

  /** A clean part comes off the front. */
  lemma SplitAfterClean(part: string, sep: string, rest: string)
    requires sep != "" && Clean(part, sep)
    ensures Split(part + sep + rest, sep) == [part] + Split(rest, sep)
  {
    var s := part + sep + rest;
    FindAfterClean(part, sep, rest);
    assert s[..|part|] == part && s[|part| + |sep|..] == rest;
  }

  /** Join then split is the identity on clean pieces. */
  lemma {:induction false} SplitJoin(parts: seq<string>, sep: string)
    requires sep != "" && parts != []
    requires forall i :: 0 <= i < |parts| - 1 ==> Clean(parts[i], sep)
    requires !Contains(parts[|parts| - 1], sep)
    ensures Split(Join(parts, sep), sep) == parts
  {
    if |parts| == 1 {
      FindNone(parts[0], sep);
    } else {
      var rest := parts[1..];
      SplitJoin(rest, sep);
      SplitAfterClean(parts[0], sep, Join(rest, sep));
      assert [parts[0]] + rest == parts;
    }
  }

  /** Replacing is joining with the new text what the old one separated. */
  lemma {:induction false} ReplaceIsJoin(s: string, before: string, after: string)
    requires before != ""
    ensures Replace(s, before, after) == Join(Split(s, before), after)
    decreases |s|
  {
    match Find(s, before)
    case None =>
    case Some(i) =>
      var rest := s[i + |before|..];
      ReplaceIsJoin(rest, before, after);
      ReplaceStep(s, before, after, i);
      SplitStep(s, before, i);
      JoinCons(s[..i], Split(rest, before), after);
  }

  /** A part without any character of the separator is clean. */
  lemma CleanNoChar(part: string, sep: string)
    requires sep != "" && forall i :: 0 <= i < |part| ==> part[i] != sep[0]
    ensures Clean(part, sep) && !Contains(part, sep)
  {
    forall j: nat | j < |part| ensures !OccursAt(part + sep, sep, j) && !OccursAt(part, sep, j) {
      assert (part + sep)[j] == part[j];
      OccursHead(part + sep, sep, j);
      OccursHead(part, sep, j);
    }
    assert (part + sep)[|part|..|part| + |sep|] == sep;
    FindIs(part + sep, sep, |part|);
  }

  lemma {:induction false} JoinSnoc(parts: seq<string>, last: string, sep: string)
    requires parts != []
    ensures Join(parts + [last], sep) == Join(parts, sep) + sep + last
  {
    if |parts| == 1 {
      assert (parts + [last])[1..] == [last];
    } else {
      assert (parts + [last])[1..] == parts[1..] + [last];
      JoinSnoc(parts[1..], last, sep);
    }
  }

  lemma {:induction false} JoinContains(parts: seq<string>, sep: string, k: nat)
    requires k < |parts|
    ensures Contains(Join(parts, sep), parts[k])
  {
    if |parts| == 1 {
      assert parts[0] == "" + parts[0] + "";
      ContainsConcat("", parts[0], "");
    } else if k == 0 {
      assert Join(parts, sep) == "" + parts[0] + (sep + Join(parts[1..], sep));
      ContainsConcat("", parts[0], sep + Join(parts[1..], sep));
    } else {
      JoinContains(parts[1..], sep, k - 1);
      var rest := Join(parts[1..], sep);
      assert Join(parts, sep) == (parts[0] + sep) + rest + "";
      ContainsConcat(parts[0] + sep, rest, "");
      ContainsTrans(Join(parts, sep), rest, parts[k]);
    }
  }

  // ---- splitlines --------------------------------------------------------------

  /** Index of the first line break, or |s|. */
  function LineEnd(s: string): (i: nat)
    ensures i <= |s| && NoBreaks(s[..i]) && (i < |s| ==> IsBreak(s[i]))
  {
    if s == "" || IsBreak(s[0]) then 0
    else
      var i := 1 + LineEnd(s[1..]);
      assert s[..i] == [s[0]] + s[1..][..i - 1];
      i
  }

  /** "\r\n" is one break; every other break is one character. */
  function BreakLen(s: string, i: nat): (n: nat)
    requires i < |s|
    ensures 1 <= n <= |s| - i
  {
    if s[i] == '\r' && i + 1 < |s| && s[i + 1] == '\n' then 2 else 1
  }

  /** What follows the line break at i. */
  function PastBreak(s: string, i: nat): (rest: string)
    requires i < |s|
    ensures |rest| < |s| && rest == s[i + BreakLen(s, i)..]
  {
    s[i + BreakLen(s, i)..]
  }

  /** str.splitlines(). */
  function SplitLines(s: string): (r: seq<string>)
    ensures r == [] <==> s == ""
    ensures forall k :: 0 <= k < |r| ==> NoBreaks(r[k])
    decreases |s|
  {
    if s == "" then []
    else
      var i := LineEnd(s);
      if i == |s| then assert s[..i] == s; [s] else [s[..i]] + SplitLines(PastBreak(s, i))
  }

  predicate AllLines(ls: seq<string>) {
    forall k :: 0 <= k < |ls| ==> NoBreaks(ls[k])
  }

  lemma {:induction false} LineEndOf(line: string, rest: string)
    requires NoBreaks(line)
    ensures LineEnd(line + "\n" + rest) == |line|
    decreases |line|
  {
    var s := line + "\n" + rest;
    if line != "" {
      assert s[0] == line[0];
      assert s[1..] == line[1..] + "\n" + rest;
      LineEndOf(line[1..], rest);
    }
  }

  lemma {:induction false} LineEndNone(line: string)
    requires NoBreaks(line)
    ensures LineEnd(line) == |line|
  {
    if line != "" {
      LineEndNone(line[1..]);
    }
  }

  /** One complete line comes off the front. */
  lemma SplitLinesCons(line: string, rest: string)
    requires NoBreaks(line)
    ensures SplitLines(line + "\n" + rest) == [line] + SplitLines(rest)
  {
    var s := line + "\n" + rest;
    LineEndOf(line, rest);
    assert s[|line|] == '\n' && BreakLen(s, |line|) == 1;
    assert s[|line| + 1..] == rest && s[..|line|] == line;
  }

  lemma SplitLinesOne(line: string)
    requires NoBreaks(line) && line != ""
    ensures SplitLines(line) == [line]
  {
    LineEndNone(line);
  }

  /** Every line followed by "\n", and then rest. */
  function Terminated(ls: seq<string>, rest: string): string {
    if ls == [] then rest else ls[0] + "\n" + Terminated(ls[1..], rest)
  }

  lemma {:induction false} TerminatedJoin(ls: seq<string>, rest: string)
    requires ls != []
    ensures Terminated(ls, rest) == Join(ls, "\n") + ("\n" + rest)
  {
    if |ls| == 1 {
      assert Terminated(ls[1..], rest) == rest;
      Assoc(ls[0], "\n", rest);
    } else {
      TerminatedJoin(ls[1..], rest);
      Assoc(ls[0] + "\n", Join(ls[1..], "\n"), "\n" + rest);
    }
  }

  /** Terminated lines split back into the same lines. */
  lemma {:induction false} SplitTerminated(ls: seq<string>, rest: string)
    requires AllLines(ls)
    ensures SplitLines(Terminated(ls, rest)) == ls + SplitLines(rest)
  {
    if ls == [] {
      assert ls + SplitLines(rest) == SplitLines(rest);
    } else {
      SplitTerminated(ls[1..], rest);
      SplitLinesCons(ls[0], Terminated(ls[1..], rest));
      ConsTail(ls, SplitLines(rest));
    }
  }

  /** Joined lines, terminated, split back into the same lines. */
  lemma SplitLinesJoin(ls: seq<string>)
    requires ls != [] && AllLines(ls)
    ensures SplitLines(Join(ls, "\n") + "\n") == ls
  {
    TerminatedJoin(ls, "");
    SplitTerminated(ls, "");
    assert "\n" + "" == "\n";
  }

  function DropFinalNewline(s: string): string {
    if s != "" && s[|s| - 1] == '\n' then s[..|s| - 1] else s
  }

  lemma DropFinalNewlineCons(a: string, rest: string)
    requires rest != ""
    ensures DropFinalNewline(a + rest) == a + DropFinalNewline(rest)
  {
    assert (a + rest)[|a + rest| - 1] == rest[|rest| - 1];
    assert (a + rest)[..|a + rest| - 1] == a + rest[..|rest| - 1];
  }

  lemma JoinLineCons(line: string, ls: seq<string>)
    ensures Join([line] + ls, "\n") == if ls == [] then line else line + "\n" + Join(ls, "\n")
  {
    if ls == [] {
      assert [line] + ls == [line];
    } else {
      assert ([line] + ls)[1..] == ls;
    }
  }

  /** With "\n" the only break, joining the lines restores all but a final newline. */
  lemma {:induction false} JoinSplitLines(s: string)
    requires OnlyNewlines(s)
    ensures Join(SplitLines(s), "\n") == DropFinalNewline(s)
    decreases |s|
  {
    if s != "" {
      var i := LineEnd(s);
      if i == |s| {
        assert s[..i] == s;
      } else {
        var line, rest := s[..i], s[i + 1..];
        assert s[i] == '\n';
        assert s == line + "\n" + rest;
        SplitLinesCons(line, rest);
        JoinSplitLines(rest);
        JoinLineCons(line, SplitLines(rest));
        if rest != "" {
          DropFinalNewlineCons(line + "\n", rest);
        }
      }
    }
  }

  lemma OnlyNewlinesConcat(a: string, b: string)
    requires OnlyNewlines(a) && OnlyNewlines(b)
    ensures OnlyNewlines(a + b)
  {
  }

  lemma OnlyNewlinesParts(a: string, b: string)
    ensures OnlyNewlines(a + b) <==> OnlyNewlines(a) && OnlyNewlines(b)
  {
    if OnlyNewlines(a + b) {
      forall i | 0 <= i < |a| && IsBreak(a[i]) ensures a[i] == '\n' {
        assert (a + b)[i] == a[i];
      }
      forall i | 0 <= i < |b| && IsBreak(b[i]) ensures b[i] == '\n' {
        assert (a + b)[|a| + i] == b[i];
      }
    }
  }

  /** Replacing one text by another with the same kind of breaks changes no kind of break. */
  lemma {:induction false} ReplaceBreaks(s: string, before: string, after: string)
    requires before != "" && (OnlyNewlines(before) <==> OnlyNewlines(after))
    ensures OnlyNewlines(Replace(s, before, after)) <==> OnlyNewlines(s)
    decreases |s|
  {
    match Find(s, before)
    case None =>
    case Some(i) =>
      var rest := s[i + |before|..];
      ReplaceBreaks(rest, before, after);
      FoundParts(s, before, i);
      ThreeParts(s[..i], before, rest);
      ThreeParts(s[..i], after, Replace(rest, before, after));
  }

  lemma FoundParts(s: string, w: string, i: nat)
    requires OccursAt(s, w, i)
    ensures s == s[..i] + w + s[i + |w|..]
  {
  }

  lemma ThreeParts(a: string, b: string, c: string)
    ensures OnlyNewlines(a + b + c) <==> OnlyNewlines(a) && OnlyNewlines(b) && OnlyNewlines(c)
  {
    OnlyNewlinesParts(a, b);
    OnlyNewlinesParts(a + b, c);
  }

  lemma {:induction false} JoinBreaks(parts: seq<string>, sep: string)
    requires OnlyNewlines(sep)
    ensures OnlyNewlines(Join(parts, sep)) <==> forall k :: 0 <= k < |parts| ==> OnlyNewlines(parts[k])
  {
    if |parts| > 1 {
      var rest := parts[1..];
      JoinBreaks(rest, sep);
      OnlyNewlinesParts(parts[0], sep);
      OnlyNewlinesParts(parts[0] + sep, Join(rest, sep));
      assert forall k :: 1 <= k < |parts| ==> rest[k - 1] == parts[k];
    }
  }

  /** Joined lines contain no break but "\n". */
  lemma {:induction false} JoinOnlyNewlines(ls: seq<string>)
    requires AllLines(ls)
    ensures OnlyNewlines(Join(ls, "\n"))
  {
    if |ls| >= 1 {
      assert OnlyNewlines(ls[0]);
    }
    if |ls| > 1 {
      JoinOnlyNewlines(ls[1..]);
      OnlyNewlinesConcat("\n", Join(ls[1..], "\n"));
      OnlyNewlinesConcat(ls[0], "\n" + Join(ls[1..], "\n"));
      assert Join(ls, "\n") == ls[0] + ("\n" + Join(ls[1..], "\n"));
    }
  }
}
