// okf_bundle.py: a stored concept printed as a markdown document with frontmatter,
// and read back.
//
// JSON is the pair enc/read: enc prints one value, read is json.loads falling back to
// the raw text. Link targets come with the relative path they are printed with.

module Bundle {
  import opened Basics
  import opened Text
  import opened Layers
  import opened Splitting

  const FRONTMATTER_KEYS: seq<string> := [
    "type", "title", "description", "resource", "tags", "timestamp", "subject", "source_query", "links"
  ]

  /** enc prints a value on one line without outer whitespace, and read reads it back. */
  ghost predicate Codec<V(!new)>(enc: V -> string, read: string -> V) {
    forall v: V :: read(enc(v)) == v && NoBreaks(enc(v)) && Trimmed(enc(v), IsSpace)
  }

  /** A key that a "key: value" line can carry. */
  predicate GoodKey(key: string) {
    key != "" && key[0] != '-' && NoBreaks(key) && Trimmed(key, IsSpace) && FirstChar(key, ':', 0) == |key|
  }

  predicate GoodKeys(keys: seq<string>) {
    forall k :: 0 <= k < |keys| ==> GoodKey(keys[k])
  }

  // ---- printing ------------------------------------------------------------------

  function KeyLine<V>(key: string, value: V, enc: V -> string): string {
    key + ": " + enc(value)
  }

  function MetaLines<V>(keys: seq<string>, meta: map<string, V>, enc: V -> string): seq<string> {
    if keys == [] then []
    else
      var n := |keys| - 1;
      MetaLines(keys[..n], meta, enc) + if keys[n] in meta then [KeyLine(keys[n], meta[keys[n]], enc)] else []
  }

  function RenderFrontmatter<V>(keys: seq<string>, meta: map<string, V>, enc: V -> string): string {
    Join(["---"] + MetaLines(keys, meta, enc) + ["---"], "\n")
  }

  /** render_frontmatter as written: lines appended key by key, for the keys of FRONTMATTER_KEYS. */
  method PrintFrontmatter<V>(keys: seq<string>, meta: map<string, V>, enc: V -> string) returns (r: string)
    ensures r == RenderFrontmatter(keys, meta, enc)
  {
    var lines := ["---"];
    for n := 0 to |keys|
      invariant lines == ["---"] + MetaLines(keys[..n], meta, enc)
    {
      var key := keys[n];
      MetaStep(keys, n, meta, enc);
      if key in meta {
        lines := lines + [KeyLine(key, meta[key], enc)];
      }
    }
    assert keys[..|keys|] == keys;
    lines := lines + ["---"];
    r := Join(lines, "\n");
  }

  lemma MetaStep<V>(keys: seq<string>, n: nat, meta: map<string, V>, enc: V -> string)
    requires n < |keys|
    ensures MetaLines(keys[..n + 1], meta, enc)
         == MetaLines(keys[..n], meta, enc) + if keys[n] in meta then [KeyLine(keys[n], meta[keys[n]], enc)] else []
  {
    assert keys[..n + 1][..n] == keys[..n];
  }

  // ---- parsing -------------------------------------------------------------------

  function ParseLine<V>(line: string, read: string -> V): Option<(string, V)> {
    match Find(line, ":")
    case None => None
    case Some(i) => Some((Strip(line[..i], IsSpace), read(Strip(line[i + 1..], IsSpace))))
  }

  function LineParser<V>(read: string -> V): string -> Option<(string, V)> {
    line => ParseLine(line, read)
  }

  function AddEntry<V>(meta: map<string, V>, entry: Option<(string, V)>): map<string, V> {
    match entry
    case None => meta
    case Some(e) => meta[e.0 := e.1]
  }

  /** The entries of the lines, later ones overriding earlier ones. */
  function ParseLines<V>(lines: seq<string>, parse: string -> Option<(string, V)>): map<string, V> {
    if lines == [] then map[]
    else AddEntry(ParseLines(lines[..|lines| - 1], parse), parse(lines[|lines| - 1]))
  }

  /** raw.partition("\n---\n"): the header, and what follows the closing rule. */
  function Partition(raw: string): (string, string) {
    match Find(raw, "\n---\n")
    case None => (raw, "")
    case Some(i) => (raw[..i], raw[i + 5..])
  }

  function ParseFrontmatter<V>(raw: string, read: string -> V): (map<string, V>, string) {
    if !StartsWith(raw, "---\n") then (map[], raw)
    else
      var (header, rest) := Partition(raw[4..]);
      (ParseLines(SplitLines(header), LineParser(read)), LStrip(rest, IsNewline))
  }

  lemma ParseStep<V>(lines: seq<string>, n: nat, parse: string -> Option<(string, V)>)
    requires n < |lines|
    ensures ParseLines(lines[..n + 1], parse) == AddEntry(ParseLines(lines[..n], parse), parse(lines[n]))
  {
    assert lines[..n + 1][..n] == lines[..n];
  }

  /** parse_frontmatter as written: a pass over the header lines that fills meta. */
  method ReadFrontmatter<V>(raw: string, read: string -> V) returns (meta: map<string, V>, body: string)
    ensures (meta, body) == ParseFrontmatter(raw, read)
  {
    if !StartsWith(raw, "---\n") {
      return map[], raw;
    }
    var (header, rest) := Partition(raw[4..]);
    var lines := SplitLines(header);
    meta := map[];
    for n := 0 to |lines|
      invariant meta == ParseLines(lines[..n], LineParser(read))
    {
      ParseStep(lines, n, LineParser(read));
      var entry := ParseLine(lines[n], read);
      if entry.Some? {
        meta := meta[entry.value.0 := entry.value.1];
      }
    }
    assert lines[..|lines|] == lines;
    body := LStrip(rest, IsNewline);
  }

  // ---- frontmatter round trip ------------------------------------------------------

  /** The keys the bundle prints can each carry a line. */
  lemma FrontmatterKeysGood()
    ensures GoodKeys(FRONTMATTER_KEYS)
    ensures FRONTMATTER_KEYS
      == ["type", "title", "description", "resource", "tags", "timestamp", "subject", "source_query", "links"]
  {
    forall k | 0 <= k < |FRONTMATTER_KEYS| ensures GoodKey(FRONTMATTER_KEYS[k]) {
      PlainKey(FRONTMATTER_KEYS[k]);
    }
  }

  predicate Lettered(key: string) {
    key != "" && forall i :: 0 <= i < |key| ==> 'a' <= key[i] <= 'z' || key[i] == '_'
  }

  lemma PlainKey(key: string)
    requires Lettered(key)
    ensures GoodKey(key)
  {
    forall i | 0 <= i < |key| ensures !IsBreak(key[i]) && !IsSpace(key[i]) && key[i] != ':' {
    }
  }

  lemma KeyLineParses<V(!new)>(key: string, value: V, enc: V -> string, read: string -> V)
    requires GoodKey(key) && Codec(enc, read)
    ensures ParseLine(KeyLine(key, value, enc), read) == Some((key, value))
    ensures NoBreaks(KeyLine(key, value, enc)) && KeyLine(key, value, enc)[0] == key[0]
  {
    KeyLineSplits(key, enc(value));
  }

  lemma KeyLineSplits(key: string, text: string)
    requires GoodKey(key) && NoBreaks(text) && Trimmed(text, IsSpace)
    ensures var line := key + ": " + text;
      && Find(line, ":") == Some(|key|) && Strip(line[..|key|], IsSpace) == key && Strip(line[|key| + 1..], IsSpace) == text
      && NoBreaks(line) && line[0] == key[0]
  {
    KeyLineColon(key, text);
    KeyLineUnbroken(key, text);
    StripTrimmed(key, IsSpace);
    StripSpaced(text);
  }

  lemma KeyLineColon(key: string, text: string)
    requires GoodKey(key)
    ensures var line := key + ": " + text;
      Find(line, ":") == Some(|key|) && line[..|key|] == key && line[|key| + 1..] == " " + text
  {
    var line := key + ": " + text;
    assert line == key + ":" + (" " + text);
    CleanNoChar(key, ":");
    FindAfterClean(key, ":", " " + text);
  }

  lemma KeyLineUnbroken(key: string, text: string)
    requires key != "" && NoBreaks(key) && NoBreaks(text)
    ensures NoBreaks(key + ": " + text) && (key + ": " + text)[0] == key[0]
  {
    var line := key + ": " + text;
    forall i | 0 <= i < |line| ensures !IsBreak(line[i]) {
      if i < |key| {
        assert line[i] == key[i];
      } else if i >= |key| + 2 {
        assert line[i] == text[i - |key| - 2];
      }
    }
  }

  lemma StripSpaced(text: string)
    requires Trimmed(text, IsSpace)
    ensures Strip(" " + text, IsSpace) == text
  {
    assert " " + text == " " + text + "";
    StripAround(" ", text, "", IsSpace);
  }

  lemma MetaLinesSnoc<V>(keys: seq<string>, key: string, meta: map<string, V>, enc: V -> string)
    ensures MetaLines(keys + [key], meta, enc)
         == MetaLines(keys, meta, enc) + if key in meta then [KeyLine(key, meta[key], enc)] else []
  {
    assert (keys + [key])[..|keys|] == keys;
  }

  lemma ParseSnoc<V>(lines: seq<string>, line: string, parse: string -> Option<(string, V)>)
    ensures ParseLines(lines + [line], parse) == AddEntry(ParseLines(lines, parse), parse(line))
  {
    assert (lines + [line])[..|lines|] == lines;
  }

  function Select<V>(keys: seq<string>, meta: map<string, V>): map<string, V> {
    map k | k in keys && k in meta :: meta[k]
  }

  lemma SelectSnoc<V>(keys: seq<string>, key: string, meta: map<string, V>)
    ensures Select(keys + [key], meta) == if key in meta then Select(keys, meta)[key := meta[key]] else Select(keys, meta)
  {
  }

  lemma {:induction false} MetaLinesParse<V(!new)>(keys: seq<string>, meta: map<string, V>, enc: V -> string, read: string -> V)
    requires GoodKeys(keys) && Codec(enc, read)
    ensures ParseLines(MetaLines(keys, meta, enc), LineParser(read)) == Select(keys, meta)
  {
    if keys != [] {
      var front, key := keys[..|keys| - 1], keys[|keys| - 1];
      assert keys == front + [key];
      MetaLinesParse(front, meta, enc, read);
      MetaLinesSnoc(front, key, meta, enc);
      SelectSnoc(front, key, meta);
      if key in meta {
        KeyLineParses(key, meta[key], enc, read);
        ParseSnoc(MetaLines(front, meta, enc), KeyLine(key, meta[key], enc), LineParser(read));
        assert LineParser(read)(KeyLine(key, meta[key], enc)) == Some((key, meta[key]));
      } else {
        assert MetaLines(keys, meta, enc) == MetaLines(front, meta, enc);
      }
    }
  }

  /** Every line is a single line, not empty, and does not start with "-". */
  predicate Undashed(ls: seq<string>) {
    forall k :: 0 <= k < |ls| ==> NoBreaks(ls[k]) && ls[k] != "" && ls[k][0] != '-'
  }

  lemma {:induction false} MetaLinesUndashed<V(!new)>(keys: seq<string>, meta: map<string, V>, enc: V -> string, read: string -> V)
    requires GoodKeys(keys) && Codec(enc, read)
    ensures Undashed(MetaLines(keys, meta, enc))
    ensures |MetaLines(keys, meta, enc)| >= |Select(keys, meta)|
  {
    if keys != [] {
      var front, key := keys[..|keys| - 1], keys[|keys| - 1];
      assert keys == front + [key];
      MetaLinesUndashed(front, meta, enc, read);
      MetaLinesSnoc(front, key, meta, enc);
      SelectSnoc(front, key, meta);
      if key in meta {
        KeyLineParses(key, meta[key], enc, read);
        UndashedSnoc(MetaLines(front, meta, enc), KeyLine(key, meta[key], enc));
      }
    }
  }

  lemma UndashedSnoc(ls: seq<string>, l: string)
    requires Undashed(ls) && NoBreaks(l) && l != "" && l[0] != '-'
    ensures Undashed(ls + [l])
  {
  }

  /** In joined undashed lines no "\n" is last or is followed by "-". */
  lemma {:induction false} JoinUndashed(ls: seq<string>)
    requires Undashed(ls) && ls != []
    ensures var s := Join(ls, "\n");
      s != "" && s[0] != '-' && forall j :: 0 <= j < |s| && s[j] == '\n' ==> j + 1 < |s| && s[j + 1] != '-'
  {
    var s := Join(ls, "\n");
    NoNewline(ls[0]);
    if |ls| > 1 {
      JoinUndashed(ls[1..]);
      var t := Join(ls[1..], "\n");
      assert s == ls[0] + "\n" + t;
      assert forall i :: 0 <= i < |ls[0]| ==> s[i] == ls[0][i];
      forall j | 0 <= j < |s| && s[j] == '\n' ensures j + 1 < |s| && s[j + 1] != '-' {
        if j > |ls[0]| {
          assert s[j] == t[j - |ls[0]| - 1];
          assert s[j + 1] == t[j - |ls[0]|];
        } else {
          assert s[j + 1] == t[0];
        }
      }
    }
  }

  lemma NoNewline(s: string)
    requires NoBreaks(s)
    ensures forall i :: 0 <= i < |s| ==> s[i] != '\n'
  {
    forall i | 0 <= i < |s| ensures s[i] != '\n' {
      assert !IsBreak(s[i]);
    }
  }

  lemma RuleIsClean(s: string)
    requires forall j :: 0 <= j < |s| && s[j] == '\n' ==> j + 1 < |s| && s[j + 1] != '-'
    ensures Clean(s, "\n---\n")
  {
    var rule := "\n---\n";
    var t := s + rule;
    assert t[|s|..] == rule;
    forall j: nat | j < |s| ensures !OccursAt(t, rule, j) {
      SecondChar(t, rule, j);
      assert t[j] == s[j];
      if j + 1 < |s| {
        assert t[j + 1] == s[j + 1];
      }
    }
    FindIs(t, rule, |s|);
  }

  lemma SecondChar(s: string, w: string, j: nat)
    requires |w| >= 2
    ensures OccursAt(s, w, j) ==> j + 1 < |s| && s[j] == w[0] && s[j + 1] == w[1]
  {
  }

  /** Raw text of a document with at least one frontmatter line, as terminated lines. */
  lemma RenderedShape(ls: seq<string>, tail: string)
    requires ls != []
    ensures Join(["---"] + ls + ["---"], "\n") + "\n" + tail
         == "---\n" + (Join(ls, "\n") + "\n---\n" + tail)
  {
    var j := Join(ls, "\n");
    assert (["---"] + ls + ["---"])[1..] == ls + ["---"];
    JoinSnoc(ls, "---", "\n");
    assert Join(["---"] + ls + ["---"], "\n") == "---" + "\n" + (j + "\n" + "---");
  }

  lemma {:induction false} SplitLinesOpen(ls: seq<string>)
    requires ls != [] && Undashed(ls)
    ensures SplitLines(Join(ls, "\n")) == ls
  {
    if |ls| == 1 {
      SplitLinesOne(ls[0]);
    } else {
      SplitLinesOpen(ls[1..]);
      SplitLinesCons(ls[0], Join(ls[1..], "\n"));
      ConsTail(ls, []);
    }
  }

  lemma PartitionHeader(ls: seq<string>, tail: string)
    requires ls != [] && Undashed(ls)
    ensures Partition(Join(ls, "\n") + "\n---\n" + tail) == (Join(ls, "\n"), tail)
  {
    JoinUndashed(ls);
    RuleIsClean(Join(ls, "\n"));
    FindAfterClean(Join(ls, "\n"), "\n---\n", tail);
    var raw := Join(ls, "\n") + "\n---\n" + tail;
    assert raw[..|Join(ls, "\n")|] == Join(ls, "\n");
    assert raw[|Join(ls, "\n")| + 5..] == tail;
  }

  /** Printed frontmatter parses back to the same metadata, and the body follows it, for any good keys. */
  lemma FrontmatterRoundTrip<V(!new)>(keys: seq<string>, meta: map<string, V>, body: string, enc: V -> string, read: string -> V)
    requires GoodKeys(keys) && Codec(enc, read) && Select(keys, meta) != map[]
    ensures ParseFrontmatter(RenderFrontmatter(keys, meta, enc) + "\n" + body, read)
         == (Select(keys, meta), LStrip(body, IsNewline))
  {
    var ls := MetaLines(keys, meta, enc);
    MetaLinesUndashed(keys, meta, enc, read);
    MetaLinesParse(keys, meta, enc, read);
    assert ls != [];
    RenderedShape(ls, body);
    ParsesHeader(ls, body, read);
  }

  lemma ParsesHeader<V>(ls: seq<string>, tail: string, read: string -> V)
    requires ls != [] && Undashed(ls)
    ensures ParseFrontmatter("---\n" + (Join(ls, "\n") + "\n---\n" + tail), read)
         == (ParseLines(ls, LineParser(read)), LStrip(tail, IsNewline))
  {
    var rest := Join(ls, "\n") + "\n---\n" + tail;
    var raw := "---\n" + rest;
    assert raw[0..4] == "---\n" && raw[4..] == rest;
    assert StartsWith(raw, "---\n");
    PartitionHeader(ls, tail);
    assert Partition(raw[4..]) == (Join(ls, "\n"), tail);
    SplitLinesOpen(ls);
  }

  // ---- the Related section ---------------------------------------------------------

  predicate IsRelated(line: string) {
    Strip(line, IsSpace) == "# Related"
  }

  predicate IsHeading(line: string) {
    StartsWith(line, "# ")
  }

  /** The lines outside the blocks that a `start` line opens and the next `stop` line ends. */
  function Skim(lines: seq<string>, skipping: bool, start: string -> bool, stop: string -> bool): seq<string> {
    if lines == [] then []
    else if start(lines[0]) then Skim(lines[1..], true, start, stop)
    else if skipping && !stop(lines[0]) then Skim(lines[1..], true, start, stop)
    else [lines[0]] + Skim(lines[1..], false, start, stop)
  }

  function DropRelated(body: string): string {
    RStrip(Join(Skim(SplitLines(body), false, IsRelated, IsHeading), "\n"), IsSpace) + "\n"
  }

  lemma SkimStep(lines: seq<string>, n: nat, skipping: bool, out: seq<string>, start: string -> bool, stop: string -> bool)
    requires n < |lines|
    ensures out + Skim(lines[n..], skipping, start, stop)
         == if start(lines[n]) || (skipping && !stop(lines[n])) then out + Skim(lines[n + 1..], true, start, stop)
            else (out + [lines[n]]) + Skim(lines[n + 1..], false, start, stop)
  {
    assert lines[n..][1..] == lines[n + 1..];
    var rest := Skim(lines[n + 1..], false, start, stop);
    assert out + ([lines[n]] + rest) == (out + [lines[n]]) + rest;
  }

  /** The loop of _drop_related_section: one pass with a skipping flag. */
  method SkimLines(lines: seq<string>, start: string -> bool, stop: string -> bool) returns (out: seq<string>)
    ensures out == Skim(lines, false, start, stop)
  {
    out := [];
    var skipping := false;
    assert lines[0..] == lines;
    for n := 0 to |lines|
      invariant out + Skim(lines[n..], skipping, start, stop) == Skim(lines, false, start, stop)
    {
      SkimStep(lines, n, skipping, out, start, stop);
      if start(lines[n]) {
        skipping := true;
      } else {
        if skipping && stop(lines[n]) {
          skipping := false;
        }
        if !skipping {
          out := out + [lines[n]];
        }
      }
    }
  }

  method DropRelatedSection(body: string) returns (r: string)
    ensures r == DropRelated(body)
  {
    var out := SkimLines(SplitLines(body), IsRelated, IsHeading);
    r := RStrip(Join(out, "\n"), IsSpace) + "\n";
  }

  predicate NoneOf(lines: seq<string>, p: string -> bool) {
    forall k :: 0 <= k < |lines| ==> !p(lines[k])
  }

  lemma {:induction false} SkimKeeps(a: seq<string>, rest: seq<string>, start: string -> bool, stop: string -> bool)
    requires NoneOf(a, start)
    ensures Skim(a + rest, false, start, stop) == a + Skim(rest, false, start, stop)
  {
    if a == [] {
      assert a + rest == rest;
      assert a + Skim(rest, false, start, stop) == Skim(rest, false, start, stop);
    } else {
      assert (a + rest)[0] == a[0] && (a + rest)[1..] == a[1..] + rest;
      SkimKeeps(a[1..], rest, start, stop);
      ConsTail(a, Skim(rest, false, start, stop));
    }
  }

  lemma {:induction false} SkimDrops(mid: seq<string>, rest: seq<string>, start: string -> bool, stop: string -> bool)
    requires NoneOf(mid, start) && NoneOf(mid, stop)
    ensures Skim(mid + rest, true, start, stop) == Skim(rest, true, start, stop)
  {
    if mid == [] {
      assert mid + rest == rest;
    } else {
      assert (mid + rest)[0] == mid[0] && (mid + rest)[1..] == mid[1..] + rest;
      SkimDrops(mid[1..], rest, start, stop);
    }
  }

  /** Only the block goes: the lines before it and from the next heading on all stay. */
  lemma SkimSection(before: seq<string>, heading: string, section: seq<string>, after: seq<string>,
                    start: string -> bool, stop: string -> bool)
    requires NoneOf(before, start) && start(heading) && NoneOf(section, start) && NoneOf(section, stop)
    requires NoneOf(after, start) && (after != [] ==> stop(after[0]))
    ensures Skim(before + ([heading] + (section + after)), false, start, stop) == before + after
  {
    var rest := [heading] + (section + after);
    SkimKeeps(before, rest, start, stop);
    assert rest[1..] == section + after;
    SkimDrops(section, after, start, stop);
    if after != [] {
      SkimKeeps(after, [], start, stop);
      assert after + [] == after;
      assert Skim(after, true, start, stop) == Skim(after, false, start, stop);
    }
  }

  // ---- export ---------------------------------------------------------------------

  function LinkLine(link: (string, string)): string {
    "- [" + link.0 + "](" + link.1 + ")"
  }

  function LinkLines(related: seq<(string, string)>): (r: seq<string>)
    ensures |r| == |related| && forall k :: 0 <= k < |r| ==> r[k] == LinkLine(related[k])
  {
    if related == [] then [] else [LinkLine(related[0])] + LinkLines(related[1..])
  }

  function RenderBody(text: string, related: seq<(string, string)>): string {
    var body := RStrip(text, IsSpace) + "\n";
    if related == [] then body else body + "\n# Related\n\n" + Terminated(LinkLines(related), "")
  }

  function RenderConcept<V>(keys: seq<string>, meta: map<string, V>, text: string, related: seq<(string, string)>, enc: V -> string)
    : string
  {
    RenderFrontmatter(keys, meta, enc) + "\n" + ("\n" + RenderBody(text, related))
  }

  lemma StripHead(s: string)
    requires s != "" && !IsSpace(s[0])
    ensures Strip(s, IsSpace) != "" && Strip(s, IsSpace)[0] == s[0]
  {
    assert LStrip(s, IsSpace) == s;
  }

  lemma LinkLinesPlain(related: seq<(string, string)>)
    requires forall k :: 0 <= k < |related| ==> NoBreaks(related[k].0) && NoBreaks(related[k].1)
    ensures var ls := LinkLines(related); AllLines(ls) && NoneOf(ls, IsRelated) && NoneOf(ls, IsHeading)
  {
    var ls := LinkLines(related);
    forall k | 0 <= k < |ls| ensures NoBreaks(ls[k]) && !IsRelated(ls[k]) && !IsHeading(ls[k]) {
      LinkLinePlain(related[k]);
    }
  }

  lemma LinkLinePlain(link: (string, string))
    requires NoBreaks(link.0) && NoBreaks(link.1)
    ensures NoBreaks(LinkLine(link)) && !IsRelated(LinkLine(link)) && !IsHeading(LinkLine(link))
  {
    var line := LinkLine(link);
    assert line[0] == '-';
    StripHead(line);
    OccursHead(line, "# ", 0);
    NoBreaksConcat("- [", link.0);
    NoBreaksConcat("- [" + link.0, "](");
    NoBreaksConcat("- [" + link.0 + "](", link.1);
    NoBreaksConcat("- [" + link.0 + "](" + link.1, ")");
  }

  lemma NoBreaksConcat(a: string, b: string)
    requires NoBreaks(a) && NoBreaks(b)
    ensures NoBreaks(a + b)
  {
  }

  /** The lines of a trimmed text followed by more lines. */
  lemma BodyLines(t: string, ls: seq<string>)
    requires OnlyNewlines(t) && AllLines(ls)
    ensures SplitLines(t + "\n" + Terminated(ls, "")) == SplitLines(t + "\n") + ls
    ensures Join(SplitLines(t + "\n"), "\n") == t
  {
    OnlyNewlinesConcat(t, "\n");
    JoinSplitLines(t + "\n");
    var tl := SplitLines(t + "\n");
    TerminatedJoin(tl, Terminated(ls, ""));
    Assoc(t, "\n", Terminated(ls, ""));
    SplitTerminated(tl, Terminated(ls, ""));
    SplitTerminated(ls, "");
    assert ls + SplitLines("") == ls;
  }

  /** Reading back an exported body drops its Related section and nothing else. */
  lemma RelatedDropped(text: string, related: seq<(string, string)>)
    requires PlainBody(RStrip(text, IsSpace))
    requires forall k :: 0 <= k < |related| ==> NoBreaks(related[k].0) && NoBreaks(related[k].1)
    ensures DropRelated(RenderBody(text, related)) == RStrip(text, IsSpace) + "\n"
  {
    var t := RStrip(text, IsSpace);
    if related == [] {
      PlainKept(t);
    } else {
      LinkLinesPlain(related);
      RelatedSkimmed(t, LinkLines(related));
      SkimmedText(t);
    }
  }

  /** "\n" line ends and no Related heading of its own. */
  predicate PlainBody(t: string) {
    OnlyNewlines(t) && NoneOf(SplitLines(t + "\n"), IsRelated)
  }

  lemma PlainKept(t: string)
    requires PlainBody(t) && (t != "" ==> !IsSpace(t[|t| - 1]))
    ensures DropRelated(t + "\n") == t + "\n"
  {
    var tl := SplitLines(t + "\n");
    BodyLines(t, []);
    SkimKeeps(tl, [], IsRelated, IsHeading);
    assert tl + [] == tl;
    assert Skim(tl, false, IsRelated, IsHeading) == tl;
  }

  lemma SkimmedText(t: string)
    requires OnlyNewlines(t) && (t != "" ==> !IsSpace(t[|t| - 1]))
    ensures RStrip(Join(SplitLines(t + "\n") + [""], "\n"), IsSpace) == t
  {
    BodyLines(t, []);
    ClosedJoin(SplitLines(t + "\n"), t);
    StripClosed(t, "\n", IsSpace);
  }

  lemma ClosedJoin(tl: seq<string>, t: string)
    requires tl != [] && Join(tl, "\n") == t
    ensures Join(tl + [""], "\n") == t + "\n"
  {
    JoinSnoc(tl, "", "\n");
  }

  lemma StripClosed(t: string, tail: string, p: char -> bool)
    requires (t != "" ==> !p(t[|t| - 1])) && forall i :: 0 <= i < |tail| ==> p(tail[i])
    ensures RStrip(t + tail, p) == t
  {
    RStripSuffix(t, tail, p);
  }

  lemma TerminatedCons(l: string, ls: seq<string>, rest: string)
    ensures Terminated([l] + ls, rest) == l + "\n" + Terminated(ls, rest)
  {
    assert ([l] + ls)[1..] == ls;
  }

  const RELATED := "# Related"

  /** The lines from the heading on: the heading, an empty one, the links. */
  lemma HeadingText(heading: string, links: seq<string>)
    requires heading == RELATED
    ensures "# Related\n\n" + Terminated(links, "") == Terminated([heading] + ([""] + links), "")
  {
    var x := Terminated(links, "");
    TerminatedCons("", links, "");
    TerminatedCons(heading, [""] + links, "");
    assert "" + "\n" + x == "\n" + x;
    assert heading + "\n" + ("\n" + x) == "# Related\n\n" + x;
  }

  /** The lines of the section: an empty one, the heading, an empty one, the links. */
  lemma SectionText(heading: string, links: seq<string>)
    requires heading == RELATED
    ensures "\n# Related\n\n" + Terminated(links, "") == Terminated([""] + ([heading] + ([""] + links)), "")
  {
    var x := Terminated(links, "");
    HeadingText(heading, links);
    TerminatedCons("", [heading] + ([""] + links), "");
    assert "" + "\n" + ("# Related\n\n" + x) == "\n# Related\n\n" + x;
  }

  lemma RelatedSkimmed(t: string, links: seq<string>)
    requires PlainBody(t) && AllLines(links) && NoneOf(links, IsRelated) && NoneOf(links, IsHeading)
    ensures Skim(SplitLines(t + "\n" + "\n# Related\n\n" + Terminated(links, "")), false, IsRelated, IsHeading)
         == SplitLines(t + "\n") + [""]
  {
    var heading: string := RELATED;
    var section := [""] + links;
    SectionText(heading, links);
    Assoc(t + "\n", "\n# Related\n\n", Terminated(links, ""));
    RelatedIsLine(heading);
    SectionPlain(heading, links);
    BodyLines(t, [""] + ([heading] + section));
    SkimLinesOf(SplitLines(t + "\n"), heading, section);
  }

  lemma SectionPlain(heading: string, links: seq<string>)
    requires AllLines(links) && NoneOf(links, IsRelated) && NoneOf(links, IsHeading) && NoBreaks(heading)
    ensures var section := [""] + links;
      AllLines([""] + ([heading] + section)) && NoneOf(section, IsRelated) && NoneOf(section, IsHeading)
  {
    EmptyIsPlain();
    NoneOfCons("", links, IsRelated);
    NoneOfCons("", links, IsHeading);
    AllLinesCons("", links);
    AllLinesCons(heading, [""] + links);
    AllLinesCons("", [heading] + ([""] + links));
  }

  lemma NoneOfCons(line: string, ls: seq<string>, p: string -> bool)
    requires !p(line) && NoneOf(ls, p)
    ensures NoneOf([line] + ls, p)
  {
  }

  lemma AllLinesCons(line: string, ls: seq<string>)
    requires NoBreaks(line) && AllLines(ls)
    ensures AllLines([line] + ls)
  {
  }

  lemma SkimLinesOf(tl: seq<string>, heading: string, section: seq<string>)
    requires NoneOf(tl, IsRelated) && IsRelated(heading) && NoneOf(section, IsRelated) && NoneOf(section, IsHeading)
    ensures Skim(tl + ([""] + ([heading] + section)), false, IsRelated, IsHeading) == tl + [""]
  {
    EmptyIsPlain();
    SkimEnd(tl, "", heading, section, IsRelated, IsHeading);
  }

  /** A section at the very end goes; the line before it stays. */
  lemma SkimEnd(tl: seq<string>, line: string, heading: string, section: seq<string>, start: string -> bool, stop: string -> bool)
    requires NoneOf(tl, start) && !start(line) && start(heading) && NoneOf(section, start) && NoneOf(section, stop)
    ensures Skim(tl + ([line] + ([heading] + section)), false, start, stop) == tl + [line]
  {
    var before := tl + [line];
    assert tl + ([line] + ([heading] + section)) == before + ([heading] + (section + []));
    SkimSection(before, heading, section, [], start, stop);
    assert before + [] == before;
  }

  lemma EmptyIsPlain()
    ensures !IsRelated("") && !IsHeading("") && NoBreaks("")
  {
    assert Strip("", IsSpace) == "";
  }

  lemma RelatedIsLine(heading: string)
    requires heading == RELATED
    ensures IsRelated(heading) && NoBreaks(heading)
  {
    RelatedPrintable(heading);
    PrintableIsLine(heading);
    StripsToItself(heading);
  }

  lemma RelatedPrintable(heading: string)
    requires heading == RELATED
    ensures |heading| == 9 && heading[0] == '#' && heading[8] == 'd'
    ensures forall i :: 0 <= i < |heading| ==> ' ' <= heading[i] <= '~'
  {
  }

  lemma StripsToItself(s: string)
    requires s != "" && s[0] == '#' && s[|s| - 1] == 'd'
    ensures Strip(s, IsSpace) == s
  {
    StripTrimmed(s, IsSpace);
  }

  lemma PrintableIsLine(s: string)
    requires forall i :: 0 <= i < |s| ==> ' ' <= s[i] <= '~'
    ensures NoBreaks(s)
  {
  }

  // ---- export then import --------------------------------------------------------------

  /** What reading the printed file hands on as the body. */
  function ReadBack(text: string, related: seq<(string, string)>): string {
    DropRelated(LStrip("\n" + RenderBody(text, related), IsNewline))
  }

  /** A body whose text does not start with a newline is read back as it was stripped. */
  lemma BodyReadBack(text: string, related: seq<(string, string)>)
    requires var t := RStrip(text, IsSpace); PlainBody(t) && (t != "" ==> t[0] != '\n')
    requires forall k :: 0 <= k < |related| ==> NoBreaks(related[k].0) && NoBreaks(related[k].1)
    ensures ReadBack(text, related) == RStrip(text, IsSpace) + "\n"
  {
    var t, body := RStrip(text, IsSpace), RenderBody(text, related);
    if t == "" {
      BlankReadBack(text, related);
    } else {
      assert body[0] == t[0];
      LStripPrefix("\n", body, IsNewline);
      RelatedDropped(text, related);
    }
  }

  lemma BlankReadBack(text: string, related: seq<(string, string)>)
    requires RStrip(text, IsSpace) == ""
    requires forall k :: 0 <= k < |related| ==> NoBreaks(related[k].0) && NoBreaks(related[k].1)
    ensures ReadBack(text, related) == "\n"
  {
    if related == [] {
      assert "\n" + RenderBody(text, related) == "\n\n" + "";
      LStripPrefix("\n\n", "", IsNewline);
    } else {
      LinkLinesPlain(related);
      BlankStart(text, related);
      OnlyRelated(RELATED, LinkLines(related));
    }
  }

  lemma BlankStart(text: string, related: seq<(string, string)>)
    requires RStrip(text, IsSpace) == "" && related != []
    ensures LStrip("\n" + RenderBody(text, related), IsNewline) == "# Related\n\n" + Terminated(LinkLines(related), "")
  {
    var x := Terminated(LinkLines(related), "");
    HeadingFirst("# Related\n\n");
    Regrouped("# Related\n\n", x);
    HeadOnly("# Related\n\n" + x);
  }

  lemma HeadingFirst(heading: string)
    requires heading == "# Related\n\n"
    ensures "\n" + heading == "\n# Related\n\n" && heading[0] == '#'
  {
  }

  lemma Regrouped(heading: string, x: string)
    ensures "\n" + ("" + "\n" + ("\n" + heading) + x) == "\n\n\n" + (heading + x)
  {
  }

  lemma HeadOnly(rest: string)
    requires rest != "" && rest[0] == '#'
    ensures LStrip("\n\n\n" + rest, IsNewline) == rest
  {
    LStripPrefix("\n\n\n", rest, IsNewline);
  }

  /** A body that is nothing but the section is read back as empty. */
  lemma OnlyRelated(heading: string, links: seq<string>)
    requires heading == RELATED && AllLines(links) && NoneOf(links, IsRelated) && NoneOf(links, IsHeading)
    ensures Skim(SplitLines("# Related\n\n" + Terminated(links, "")), false, IsRelated, IsHeading) == []
  {
    var section := [""] + links;
    HeadingText(heading, links);
    RelatedIsLine(heading);
    SectionPlain(heading, links);
    AllLinesTail("", [heading] + section);
    SplitTerminated([heading] + section, "");
    assert [heading] + section + SplitLines("") == [heading] + section;
    OnlySection(heading, section, IsRelated, IsHeading);
  }

  lemma OnlySection(heading: string, section: seq<string>, start: string -> bool, stop: string -> bool)
    requires start(heading) && NoneOf(section, start) && NoneOf(section, stop)
    ensures Skim([heading] + section, false, start, stop) == []
  {
    assert [heading] + section == [] + ([heading] + (section + []));
    SkimSection([], heading, section, [], start, stop);
  }

  lemma AllLinesTail(line: string, ls: seq<string>)
    requires AllLines([line] + ls)
    ensures AllLines(ls)
  {
    assert ([line] + ls)[1..] == ls;
  }

  /**
   * Exporting a layered concept and importing the file again restores its metadata whatever
   * links the Related section printed, and restores both layers iff they are splittable. The
   * text has "\n" line ends, no leading newline and no Related line of its own.
   */
  lemma ExportImport<V(!new)>(keys: seq<string>, meta: map<string, V>, core: string, overlay: string, related: seq<(string, string)>,
                              enc: V -> string, read: string -> V)
    requires GoodKeys(keys) && Codec(enc, read) && Select(keys, meta) != map[]
    requires var t := RStrip(MergeLayers(core, overlay), IsSpace); PlainBody(t) && (t != "" ==> t[0] != '\n')
    requires forall k :: 0 <= k < |related| ==> NoBreaks(related[k].0) && NoBreaks(related[k].1)
    ensures var parsed := ParseFrontmatter(RenderConcept(keys, meta, MergeLayers(core, overlay), related, enc), read);
      && parsed.0 == Select(keys, meta)
      && (SplitLayers(DropRelated(parsed.1), core) == (core, overlay) <==> Splittable(core, overlay))
  {
    var text := MergeLayers(core, overlay);
    FrontmatterRoundTrip(keys, meta, "\n" + RenderBody(text, related), enc, read);
    BodyReadBack(text, related);
    SplitExact(core, overlay);
  }

  /** w with characters of p around it. */
  ghost predicate Around(line: string, w: string, p: char -> bool) {
    exists a: string, b: string :: Padded(line, a, w, b, p)
  }

  predicate Padded(line: string, a: string, w: string, b: string, p: char -> bool) {
    line == a + w + b && (forall i :: 0 <= i < |a| ==> p(a[i])) && (forall i :: 0 <= i < |b| ==> p(b[i]))
  }

  /** The line that opens the dropped section may have blanks around it; the one that ends it starts with a mark. */
  lemma SectionLinesExact(line: string)
    ensures IsRelated(line) <==> Around(line, "# Related", IsSpace)
    ensures IsHeading(line) <==> |line| >= 2 && line[0] == '#' && line[1] == ' '
  {
    assert !IsSpace('#') && !IsSpace('d');
    StripsTo(line, "# Related", IsSpace);
    HeadingExact(line, "# ");
  }

  lemma HeadingExact(line: string, w: string)
    requires w == "# "
    ensures StartsWith(line, w) <==> |line| >= 2 && line[0] == '#' && line[1] == ' '
  {
    if |line| >= 2 {
      assert line[0..2] == [line[0], line[1]];
    }
  }

  lemma StripsTo(line: string, w: string, p: char -> bool)
    requires Trimmed(w, p)
    ensures Strip(line, p) == w <==> Around(line, w, p)
  {
    if Strip(line, p) == w {
      PadsTo(line, p);
    }
    if a: string, b: string :| Padded(line, a, w, b, p) {
      StripAround(a, w, b, p);
    }
  }

  lemma PadsTo(line: string, p: char -> bool)
    ensures Around(line, Strip(line, p), p)
  {
    var a, b := StripParts(line, p);
    Assoc(a, Strip(line, p), b);
    assert Padded(line, a, Strip(line, p), b, p);
  }
}
