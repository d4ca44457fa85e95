// Overlay blocks: the blank-line separated notes of a concept's learned overlay,
// as memory_write.py edits them and memory_migrate_labels.py labels them.

module Overlay {
  import opened Basics
  import opened Text

  const SEPARATOR := "\n\n"

  /** One stored note: stripped, non-empty, without a blank line inside. */
  predicate ValidBlock(b: string) {
    b != "" && Trimmed(b, IsSpace) && !Contains(b, SEPARATOR)
  }

  predicate ValidBlocks(bs: seq<string>) {
    forall k :: 0 <= k < |bs| ==> ValidBlock(bs[k])
  }

  function NonEmpty(b: string): seq<string> {
    if b == "" then [] else [b]
  }

  /** The block of one piece: none when the piece is blank. */
  function Piece(piece: string): seq<string> {
    NonEmpty(Strip(piece, IsSpace))
  }

  /** [p.strip() for p in pieces if p.strip()] */
  function StripAll(pieces: seq<string>): seq<string> {
    if pieces == [] then [] else Piece(pieces[0]) + StripAll(pieces[1..])
  }

  function Blocks(overlay: string): seq<string> {
    StripAll(Split(overlay, SEPARATOR))
  }

  function Render(blocks: seq<string>): string {
    Join(blocks, SEPARATOR) + "\n"
  }

  // ---- the codec ---------------------------------------------------------------

  lemma StripNoSeparator(piece: string)
    requires !Contains(piece, SEPARATOR)
    ensures !Contains(Strip(piece, IsSpace), SEPARATOR)
  {
    var a, b := StripParts(piece, IsSpace);
    if Contains(Strip(piece, IsSpace), SEPARATOR) {
      Assoc(a, Strip(piece, IsSpace), b);
      ContainsConcat(a, Strip(piece, IsSpace), b);
      ContainsTrans(piece, Strip(piece, IsSpace), SEPARATOR);
    }
  }

  lemma {:induction false} StripAllValid(pieces: seq<string>)
    requires forall k :: 0 <= k < |pieces| ==> !Contains(pieces[k], SEPARATOR)
    ensures ValidBlocks(StripAll(pieces))
  {
    if pieces != [] {
      PieceValid(pieces[0]);
      StripAllValid(pieces[1..]);
    }
  }

  lemma PieceValid(piece: string)
    requires !Contains(piece, SEPARATOR)
    ensures ValidBlocks(Piece(piece))
  {
    StripNoSeparator(piece);
  }

  /** Whatever an overlay holds, its blocks are valid ones. */
  lemma BlocksValid(overlay: string)
    ensures ValidBlocks(Blocks(overlay))
  {
    forall k | 0 <= k < |Split(overlay, SEPARATOR)| ensures !Contains(Split(overlay, SEPARATOR)[k], SEPARATOR) {
      SplitPieces(overlay, SEPARATOR, k);
    }
    StripAllValid(Split(overlay, SEPARATOR));
  }

  /** A block can stand before the separator: it does not end in a newline. */
  lemma BlockClean(b: string)
    requires ValidBlock(b)
    ensures Clean(b, SEPARATOR)
  {
    var s := b + SEPARATOR;
    assert s[|b|..] == SEPARATOR;
    forall j: nat | j < |b| ensures !OccursAt(s, SEPARATOR, j) {
      assert s[j] == b[j];
      OccursHead(s, SEPARATOR, j);
      if j + 1 < |b| {
        assert s[j..j + 2] == b[j..j + 2];
        assert !OccursAt(b, SEPARATOR, j);
      }
    }
    FindIs(s, SEPARATOR, |b|);
  }

  lemma BlockTerminated(b: string)
    requires ValidBlock(b)
    ensures !Contains(b + "\n", SEPARATOR) && Strip(b + "\n", IsSpace) == b
  {
    var s := b + "\n";
    forall j: nat ensures !OccursAt(s, SEPARATOR, j) {
      OccursHead(s, SEPARATOR, j);
      if j + 1 < |b| {
        assert s[j..j + 2] == b[j..j + 2];
        assert !OccursAt(b, SEPARATOR, j);
      }
    }
    assert "" + b + "\n" == s;
    StripAround("", b, "\n", IsSpace);
  }

  lemma {:induction false} StripAllBlocks(bs: seq<string>, last: string)
    requires ValidBlocks(bs) && ValidBlock(last)
    ensures StripAll(bs + [last + "\n"]) == bs + [last]
  {
    if bs == [] {
      BlockTerminated(last);
      assert bs + [last + "\n"] == [last + "\n"] && bs + [last] == [last];
    } else {
      var all := bs + [last + "\n"];
      assert all[0] == bs[0] && all[1..] == bs[1..] + [last + "\n"];
      StripTrimmed(bs[0], IsSpace);
      StripAllBlocks(bs[1..], last);
      ConsTail(bs, [last]);
    }
  }

  // ---- blocks of a text that is not one block ------------------------------------------------

  lemma FindClosed(s: string, w: string)
    requires w == SEPARATOR && s != "" && s[|s| - 1] != '\n'
    ensures Find(s + "\n", w) == Find(s, w)
  {
    var t := s + "\n";
    forall j: nat ensures OccursAt(t, w, j) <==> OccursAt(s, w, j) {
      OccursPair(t, j);
      OccursPair(s, j);
    }
    match Find(s, w)
    case None => FindNone(t, w);
    case Some(i) => FindIs(t, w, i);
  }

  lemma OccursPair(s: string, j: nat)
    ensures OccursAt(s, SEPARATOR, j) <==> j + 1 < |s| && s[j] == '\n' && s[j + 1] == '\n'
  {
    if j + 2 <= |s| {
      assert s[j..j + 2] == [s[j], s[j + 1]];
    }
  }

  lemma StripAllCons(piece: string, rest: seq<string>)
    ensures StripAll([piece] + rest) == Piece(piece) + StripAll(rest)
  {
    assert ([piece] + rest)[1..] == rest;
  }

  lemma OnePiece(s: string)
    requires Find(s, SEPARATOR).None?
    ensures Blocks(s) == Piece(s)
  {
    StripAllCons(s, []);
    assert [s] + [] == [s];
  }

  lemma SplitsAt(s: string, i: nat, head: string, rest: string)
    requires Find(s, SEPARATOR) == Some(i) && head == s[..i] && rest == s[i + 2..]
    ensures Blocks(s) == Piece(head) + Blocks(rest)
  {
    StripAllCons(head, Split(rest, SEPARATOR));
  }

  /** s is a text in front of a blank line and the text after it. */
  ghost predicate Parts(s: string, head: string, rest: string) {
    && |rest| < |s|
    && Blocks(s) == Piece(head) + Blocks(rest)
    && Blocks(s + "\n") == Piece(head) + Blocks(rest + "\n")
    && Ends(rest)
  }

  /** Not empty and not blank at its end. */
  predicate Ends(s: string) { s != "" && !IsSpace(s[|s| - 1]) }

  lemma RestEnds(s: string, i: nat)
    requires OccursAt(s, SEPARATOR, i) && Ends(s)
    ensures i + 2 < |s| && Ends(s[i + 2..])
    ensures (s + "\n")[i + 2..] == s[i + 2..] + "\n" && (s + "\n")[..i] == s[..i]
  {
    OccursPair(s, i);
  }

  lemma PartsAt(s: string, i: nat)
    requires Ends(s) && Find(s, SEPARATOR) == Some(i)
    ensures i + 2 <= |s| && Parts(s, s[..i], s[i + 2..])
  {
    RestEnds(s, i);
    FindClosed(s, SEPARATOR);
    SplitsAt(s, i, s[..i], s[i + 2..]);
    SplitsAt(s + "\n", i, s[..i], s[i + 2..] + "\n");
  }

  lemma PieceEnds(s: string)
    requires Ends(s)
    ensures |Piece(s)| == 1 && Piece(s + "\n") == Piece(s)
  {
    assert IsSpace('\n');
    StripsAlike(s, "\n", IsSpace);
  }

  lemma StripsAlike(s: string, x: string, p: char -> bool)
    requires s != "" && !p(s[|s| - 1]) && |x| == 1 && p(x[0])
    ensures |NonEmpty(Strip(s, p))| == 1 && NonEmpty(Strip(s + x, p)) == NonEmpty(Strip(s, p))
  {
    StripsToSome(s, p);
    StripTail(s, x, p);
  }

  lemma StripsToSome(s: string, p: char -> bool)
    requires s != "" && !p(s[|s| - 1])
    ensures Strip(s, p) != ""
  {
    LastStays(s, p);
  }

  lemma NoParts(s: string)
    requires Ends(s) && Find(s, SEPARATOR).None?
    ensures |Blocks(s)| == 1 && Blocks(s + "\n") == Blocks(s)
  {
    PieceEnds(s);
    FindClosed(s, SEPARATOR);
    OnePiece(s);
    OnePiece(s + "\n");
  }

  /** A text that ends in a non-blank has a block, and the newline that closes it is none. */
  lemma {:induction false} BlocksClosed(s: string)
    requires Ends(s)
    ensures Blocks(s) != [] && Blocks(s + "\n") == Blocks(s)
    decreases |s|
  {
    match Find(s, SEPARATOR)
    case None => NoParts(s);
    case Some(i) =>
      PartsAt(s, i);
      BlocksClosed(s[i + 2..]);
  }

  /** A piece that starts with a non-blank is a block, its end stripped. */
  lemma PieceStarts(s: string)
    requires s != "" && !IsSpace(s[0])
    ensures RStrip(s, IsSpace) != "" && Piece(s) == [RStrip(s, IsSpace)]
  {
  }

  lemma HeadStarts(s: string, i: nat)
    requires s != "" && !IsSpace(s[0]) && OccursAt(s, SEPARATOR, i)
    ensures s[..i] != "" && s[..i][0] == s[0]
  {
    OccursPair(s, i);
    assert IsSpace('\n');
  }

  /** A stripped text with a blank line inside has more than one block. */
  lemma ManyBlocks(s: string)
    requires s != "" && Trimmed(s, IsSpace) && Contains(s, SEPARATOR)
    ensures |Blocks(s)| >= 2
  {
    FindNone(s, SEPARATOR);
    var i := Find(s, SEPARATOR).value;
    PartsAt(s, i);
    HeadStarts(s, i);
    PieceStarts(s[..i]);
    BlocksClosed(s[i + 2..]);
  }

  /** A mark that can stand in front of a text: without line breaks, and not blank at its start. */
  predicate IsMark(mark: string) {
    mark != "" && !IsSpace(mark[0]) && forall i :: 0 <= i < |mark| ==> mark[i] != '\n'
  }

  function Shifted(place: Option<nat>, n: nat): Option<nat> {
    match place
    case None => None
    case Some(i) => Some(n + i)
  }

  lemma FindLater(t: string, w: string)
    requires t != "" && t[0] != '\n' && w == SEPARATOR
    ensures Find(t, w) == Shifted(Find(t[1..], w), 1)
  {
    if |t| >= 2 {
      assert t[..2][0] == t[0] && w[0] == '\n';
    }
  }

  lemma {:induction false} FindPrefixed(mark: string, s: string)
    requires forall i :: 0 <= i < |mark| ==> mark[i] != '\n'
    ensures Find(mark + s, SEPARATOR) == Shifted(Find(s, SEPARATOR), |mark|)
  {
    if mark == "" {
      assert mark + s == s;
    } else {
      assert (mark + s)[1..] == mark[1..] + s;
      FindPrefixed(mark[1..], s);
      FindLater(mark + s, SEPARATOR);
    }
  }

  /** A mark put in front of a piece stands in front of its block. */
  lemma PiecePrefixed(mark: string, s: string)
    requires IsMark(mark) && s != "" && !IsSpace(s[0])
    ensures |Piece(s)| == 1 && Piece(mark + s) == [mark + Piece(s)[0]]
  {
    PieceStarts(s);
    RStripKeeps(mark, s, IsSpace);
    assert (mark + s)[0] == mark[0];
    PieceStarts(mark + s);
  }

  /** A mark put in front of a text stands in front of its first block. */
  lemma BlocksPrefixed(mark: string, s: string)
    requires IsMark(mark) && s != "" && !IsSpace(s[0])
    ensures Blocks(s) != [] && Blocks(mark + s) == [mark + Blocks(s)[0]] + Blocks(s)[1..]
  {
    FindPrefixed(mark, s);
    match Find(s, SEPARATOR)
    case None => PrefixedWhole(mark, s);
    case Some(i) => PrefixedHead(mark, s, i);
  }

  lemma PrefixedWhole(mark: string, s: string)
    requires IsMark(mark) && s != "" && !IsSpace(s[0]) && Find(s, SEPARATOR).None? && Find(mark + s, SEPARATOR).None?
    ensures Blocks(s) != [] && Blocks(mark + s) == [mark + Blocks(s)[0]] + Blocks(s)[1..]
  {
    OnePiece(s);
    OnePiece(mark + s);
    PiecePrefixed(mark, s);
  }

  lemma PrefixedHead(mark: string, s: string, i: nat)
    requires IsMark(mark) && s != "" && !IsSpace(s[0])
    requires Find(s, SEPARATOR) == Some(i) && Find(mark + s, SEPARATOR) == Some(|mark| + i)
    ensures Blocks(s) != [] && Blocks(mark + s) == [mark + Blocks(s)[0]] + Blocks(s)[1..]
  {
    HeadStarts(s, i);
    SplitsAt(s, i, s[..i], s[i + 2..]);
    PrefixedSplit(mark, s, i, s[..i], s[i + 2..]);
    PrefixedParts(mark, s[..i], Blocks(s), Blocks(mark + s), Blocks(s[i + 2..]));
  }

  lemma PrefixedSplit(mark: string, s: string, i: nat, head: string, rest: string)
    requires Find(mark + s, SEPARATOR) == Some(|mark| + i) && i + 2 <= |s| && head == s[..i] && rest == s[i + 2..]
    ensures Blocks(mark + s) == Piece(mark + head) + Blocks(rest)
  {
    PrefixedSlices(mark, s, i);
    SplitsAt(mark + s, |mark| + i, mark + head, rest);
  }

  lemma PrefixedParts(mark: string, head: string, bs: seq<string>, marked: seq<string>, rest: seq<string>)
    requires IsMark(mark) && head != "" && !IsSpace(head[0])
    requires bs == Piece(head) + rest && marked == Piece(mark + head) + rest
    ensures bs != [] && marked == [mark + bs[0]] + bs[1..]
  {
    PiecePrefixed(mark, head);
  }

  lemma PrefixedSlices(mark: string, s: string, i: nat)
    requires i + 2 <= |s|
    ensures (mark + s)[..|mark| + i] == mark + s[..i] && (mark + s)[|mark| + i + 2..] == s[i + 2..]
  {
  }

  /** Valid blocks come off the front one by one, whatever follows them. */
  lemma {:induction false} BlocksBefore(bs: seq<string>, tail: string)
    requires ValidBlocks(bs)
    ensures Blocks(Join(bs + [tail], SEPARATOR)) == bs + Blocks(tail)
  {
    if bs == [] {
      assert bs + [tail] == [tail];
    } else {
      var rest := Join(bs[1..] + [tail], SEPARATOR);
      assert (bs + [tail])[1..] == bs[1..] + [tail];
      BlockClean(bs[0]);
      SplitAfterClean(bs[0], SEPARATOR, rest);
      assert ([bs[0]] + Split(rest, SEPARATOR))[1..] == Split(rest, SEPARATOR);
      StripTrimmed(bs[0], IsSpace);
      BlocksBefore(bs[1..], tail);
      ConsTail(bs, Blocks(tail));
    }
  }

  /** A text appended to valid blocks reads back as its own blocks. */
  lemma BlocksSnoc(bs: seq<string>, text: string)
    requires ValidBlocks(bs) && text != "" && !IsSpace(text[|text| - 1])
    ensures Blocks(Render(bs + [text])) == bs + Blocks(text)
  {
    RenderSnoc(bs, text);
    BlocksBefore(bs, text + "\n");
    BlocksClosed(text);
  }

  lemma OneBlock(b: string)
    requires ValidBlock(b)
    ensures Blocks(b) == [b]
  {
    FindNone(b, SEPARATOR);
    StripTrimmed(b, IsSpace);
    OnePiece(b);
  }

  lemma RenderSnoc(bs: seq<string>, last: string)
    ensures Render(bs + [last]) == Join(bs + [last + "\n"], SEPARATOR)
  {
    if bs == [] {
      assert bs + [last] == [last] && bs + [last + "\n"] == [last + "\n"];
    } else {
      JoinSnoc(bs, last, SEPARATOR);
      JoinSnoc(bs, last + "\n", SEPARATOR);
    }
  }

  lemma SplitRender(bs: seq<string>, last: string)
    requires ValidBlocks(bs) && ValidBlock(last)
    ensures Split(Render(bs + [last]), SEPARATOR) == bs + [last + "\n"]
  {
    RenderSnoc(bs, last);
    BlockTerminated(last);
    forall k | 0 <= k < |bs| ensures Clean(bs[k], SEPARATOR) {
      BlockClean(bs[k]);
    }
    SplitJoin(bs + [last + "\n"], SEPARATOR);
  }

  lemma RoundTrip(bs: seq<string>)
    requires ValidBlocks(bs)
    ensures Blocks(Render(bs)) == bs
  {
    if bs == [] {
      NothingRendered(Render(bs));
    } else {
      var front, last := bs[..|bs| - 1], bs[|bs| - 1];
      assert bs == front + [last];
      SplitRender(front, last);
      StripAllBlocks(front, last);
    }
  }

  lemma NothingRendered(o: string)
    requires o == "\n"
    ensures Blocks(o) == []
  {
    BlankStrips(o, IsSpace);
    FindNone(o, SEPARATOR);
    OnePiece(o);
  }

  lemma BlankStrips(o: string, p: char -> bool)
    requires |o| == 1 && p(o[0])
    ensures Strip(o, p) == ""
  {
    assert "" + "" + o == o;
    StripAround("", "", o, p);
  }

  /** The block codec: a block list survives rendering and re-splitting iff its blocks are valid. */
  lemma BlocksCodec(bs: seq<string>)
    ensures Blocks(Render(bs)) == bs <==> ValidBlocks(bs)
  {
    BlocksValid(Render(bs));
    if ValidBlocks(bs) {
      RoundTrip(bs);
    }
  }

  // ---- retiring blocks ----------------------------------------------------------

  /** The blocks that contain the fragment (hit) or do not (!hit), ignoring case, in order. */
  function Matching(blocks: seq<string>, fragment: string, lower: string -> string, hit: bool): (r: seq<string>)
    ensures forall b :: b in r <==> b in blocks && Contains(lower(b), lower(fragment)) == hit
  {
    if blocks == [] then []
    else if Contains(lower(blocks[0]), lower(fragment)) == hit then
      [blocks[0]] + Matching(blocks[1..], fragment, lower, hit)
    else Matching(blocks[1..], fragment, lower, hit)
  }

  /** _retire_overlay_blocks: the blocks kept and how many were retired. */
  function RetireBlocks(overlay: string, fragment: Option<string>, lower: string -> string): (seq<string>, int) {
    var blocks := Blocks(overlay);
    if fragment.GetOr("") == "" then (blocks, 0)
    else
      var kept := Matching(blocks, fragment.value, lower, false);
      (kept, |blocks| - |kept|)
  }

  lemma {:induction false} MatchingPartition(blocks: seq<string>, fragment: string, lower: string -> string)
    ensures multiset(blocks)
         == multiset(Matching(blocks, fragment, lower, false)) + multiset(Matching(blocks, fragment, lower, true))
  {
    if blocks != [] {
      MatchingPartition(blocks[1..], fragment, lower);
      assert multiset(blocks) == multiset{blocks[0]} + multiset(blocks[1..]) by {
        assert blocks == [blocks[0]] + blocks[1..];
      }
    }
  }

  lemma MatchingValid(blocks: seq<string>, fragment: string, lower: string -> string)
    requires ValidBlocks(blocks)
    ensures ValidBlocks(Matching(blocks, fragment, lower, false))
  {
    var r := Matching(blocks, fragment, lower, false);
    forall k | 0 <= k < |r| ensures ValidBlock(r[k]) {
      assert r[k] in blocks;
    }
  }

  /**
   * A correction removes exactly the blocks containing the fragment: what is kept is
   * what re-reading the rewritten overlay gives, and kept + retired is everything.
   */
  lemma RetireExact(overlay: string, fragment: Option<string>, lower: string -> string)
    ensures var (kept, retired) := RetireBlocks(overlay, fragment, lower);
      && retired >= 0 && |kept| + retired == |Blocks(overlay)|
      && ValidBlocks(kept) && Blocks(Render(kept)) == kept
      && (fragment.GetOr("") == "" ==> kept == Blocks(overlay))
      && (fragment.GetOr("") != "" ==>
            && multiset(Blocks(overlay)) == multiset(kept) + multiset(Matching(Blocks(overlay), fragment.value, lower, true))
            && forall b :: b in kept <==> b in Blocks(overlay) && !Contains(lower(b), lower(fragment.value)))
  {
    BlocksValid(overlay);
    var blocks := Blocks(overlay);
    if fragment.GetOr("") != "" {
      MatchingPartition(blocks, fragment.value, lower);
      MatchingValid(blocks, fragment.value, lower);
      var kept, gone := Matching(blocks, fragment.value, lower, false), Matching(blocks, fragment.value, lower, true);
      assert |multiset(blocks)| == |multiset(kept)| + |multiset(gone)|;
    }
    RoundTrip(RetireBlocks(overlay, fragment, lower).0);
  }
}
