/**
 * Concrete runs of the check, each for every oracle that answers the few
 * questions the run asks in the stated way.
 */
module AnnotationExamples {
  import opened Text
  import opened Tokenize
  import opened Annotation

  /** A non-empty run of word characters is its segment's one part. */
  lemma WordIsOnePart(s: string)
    requires s != []
    requires forall i :: 0 <= i < |s| ==> IsWordChar(s[i])
    ensures Parts(s) == [s]
    ensures NoDrop(s)
  {
    var n := RunLength(s, Word);
    assert ClassOf(s[0]) == Word;
    assert n == |s|;
    assert s[..n] == s && s[n..] == [];
    assert MatchAll(s) == [s[..n]] + MatchAll(s[n..]);
    ConcatSingle(s);
  }

  /** A plain word: word characters only, not starting or ending with an ASCII apostrophe. */
  predicate PlainWord(w: string)
  {
    && w != [] && w[0] != '\'' && w[|w| - 1] != '\''
    && forall i :: 0 <= i < |w| ==> IsWordChar(w[i])
  }

  /** A plain word holds no whitespace, is not exempt, and trims to itself. */
  lemma PlainWordFacts(w: string)
    requires PlainWord(w)
    ensures NoSpace(w) && w != " " && !IsExempt(w) && StripApostrophes(w) == w
  {
  }

  /** A plain word's segment is kept when the oracle accepts it and becomes its marker otherwise. */
  lemma WordSegment(o: Oracle, w: string)
    requires PlainWord(w)
    ensures NoSpace(w) && NoDrop(w)
    ensures CheckSegment(o, w) == if o.correct(w) then w else Marker(w, o.suggest(w))
    ensures SegmentFlagged(o, w) <==> !o.correct(w)
  {
    PlainWordFacts(w);
    WordIsOnePart(w);
    assert Flagged(o, w) <==> !o.correct(w);
    assert CheckParts(o, [w]) == [CheckPart(o, w)];
    ConcatSingle(CheckPart(o, w));
    assert Parts(w)[0] == w;
  }

  /** Two pieces around one space that drop nothing: the check is clean iff neither piece is flagged. */
  lemma TwoSegmentCheck(o: Oracle, a: string, b: string)
    requires Segments(a + " " + b) == [a, " ", b]
    requires NoDrop(a) && NoDrop(b)
    ensures Check(o, a + " " + b).withoutErrors <==> !SegmentFlagged(o, a) && !SegmentFlagged(o, b)
  {
    var ca, cb := CheckSegment(o, a), CheckSegment(o, b);
    TwoSegmentChecked(o, a, b);
    ConcatThree(ca, " ", cb);
    SegmentGrows(o, a);
    SegmentGrows(o, b);
    RemoveSpacesAppend(a + " ", b);
    RemoveSpacesAppend(a, " ");
    RemoveSpacesAppend(ca + " ", cb);
    RemoveSpacesAppend(ca, " ");
    var before := RemoveSpaces(a) + RemoveSpaces(" ") + RemoveSpaces(b);
    var after := RemoveSpaces(ca) + RemoveSpaces(" ") + RemoveSpaces(cb);
    assert Check(o, a + " " + b).withoutErrors <==> before == after;
    if SegmentFlagged(o, a) || SegmentFlagged(o, b) {
      assert |after| > |before|;
    }
  }

  /** Two pieces around one space are checked one by one, the space kept. */
  lemma TwoSegmentChecked(o: Oracle, a: string, b: string)
    requires Segments(a + " " + b) == [a, " ", b]
    ensures Check(o, a + " " + b).checked == [CheckSegment(o, a), " ", CheckSegment(o, b)]
  {
  }

  /** Two plain words around one space: each is checked alone, and the check is clean iff both are accepted. */
  lemma TwoWordCheck(o: Oracle, a: string, b: string)
    requires PlainWord(a) && PlainWord(b)
    ensures Check(o, a + " " + b).checked == [CheckSegment(o, a), " ", CheckSegment(o, b)]
    ensures Check(o, a + " " + b).withoutErrors <==> o.correct(a) && o.correct(b)
  {
    WordSegment(o, a);
    WordSegment(o, b);
    TwoWordSegments(a, b);
    TwoSegmentChecked(o, a, b);
    TwoSegmentCheck(o, a, b);
  }

  /** Two words around one space split into the words and the space. */
  lemma TwoWordSegments(a: string, b: string)
    requires NoSpace(a) && NoSpace(b)
    ensures Segments(a + " " + b) == [a, " ", b]
  {
    assert a + " " + b == a + [' '] + b;
    SegmentsAfterSpace(a, ' ', b);
    SegmentsOfNoSpace(b);
  }

  lemma ConcatThree(x: string, y: string, z: string)
    ensures Concat([x, y, z]) == x + y + z
  {
    assert [x, y, z][1..] == [y, z];
    assert [y, z][1..] == [z];
    ConcatSingle(z);
  }

  /** Two accepted plain words: the corrected text is the input and nothing is saved as corrections. */
  lemma TwoWordsAccepted(o: Oracle, a: string, b: string)
    requires PlainWord(a) && PlainWord(b)
    requires o.correct(a) && o.correct(b)
    ensures Check(o, a + " " + b).correctedText == a + " " + b
    ensures Check(o, a + " " + b).withoutErrors
    ensures Check(o, a + " " + b).correctedString == []
  {
    TwoWordCheck(o, a, b);
    WordSegment(o, a);
    WordSegment(o, b);
    ConcatThree(a, " ", b);
  }

  /** Two rejected plain words: both become markers around the space and the whole check is saved. */
  lemma TwoWordsRejected(o: Oracle, a: string, b: string)
    requires PlainWord(a) && PlainWord(b)
    requires !o.correct(a) && !o.correct(b)
    ensures Check(o, a + " " + b).correctedText == Marker(a, o.suggest(a)) + " " + Marker(b, o.suggest(b))
    ensures !Check(o, a + " " + b).withoutErrors
    ensures Check(o, a + " " + b).correctedString == Check(o, a + " " + b).checked
  {
    TwoWordCheck(o, a, b);
    WordSegment(o, a);
    WordSegment(o, b);
    ConcatThree(Marker(a, o.suggest(a)), " ", Marker(b, o.suggest(b)));
  }

  lemma HeloMarker()
    ensures Marker("Helo", ["Hello", "Help"]) == "[Helo\U{2192}Hello|Help]"
  {
    assert ["Hello", "Help"][1..] == ["Help"];
    assert MarkerTail(["Hello", "Help"]) == "Hello" + "|" + "Help";
  }

  lemma WroldMarker()
    ensures Marker("wrold", ["world"]) == "[wrold\U{2192}world]"
  {
    assert MarkerTail(["world"]) == "world";
  }

  lemma MisspelledMarkers()
    ensures Marker("Helo", ["Hello", "Help"]) + " " + Marker("wrold", ["world"])
         == "[Helo\U{2192}Hello|Help] [wrold\U{2192}world]"
  {
    HeloMarker();
    WroldMarker();
    assert "[Helo\U{2192}Hello|Help]" + " " + "[wrold\U{2192}world]" == "[Helo\U{2192}Hello|Help] [wrold\U{2192}world]";
  }

  /**
   * "Helo wrold" with both words rejected, the first with suggestions Hello
   * and Help and the second with world: two markers around the untouched
   * space, and the check is not clean.
   */
  lemma MisspelledPair(o: Oracle)
    requires !o.correct("Helo") && o.suggest("Helo") == ["Hello", "Help"]
    requires !o.correct("wrold") && o.suggest("wrold") == ["world"]
    ensures Check(o, "Helo wrold").correctedText == "[Helo\U{2192}Hello|Help] [wrold\U{2192}world]"
    ensures !Check(o, "Helo wrold").withoutErrors
    ensures Check(o, "Helo wrold").correctedString == Check(o, "Helo wrold").checked
  {
    assert PlainWord("Helo") && PlainWord("wrold");
    assert "Helo wrold" == "Helo" + " " + "wrold";
    TwoWordsRejected(o, "Helo", "wrold");
    assert Check(o, "Helo wrold").correctedText
        == Marker("Helo", ["Hello", "Help"]) + " " + Marker("wrold", ["world"]);
    MisspelledMarkers();
  }

  /** "Hello world" with both words accepted: the corrected text is the input, the check is clean, nothing is saved as corrections. */
  lemma CorrectPair(o: Oracle)
    requires o.correct("Hello") && o.correct("world")
    ensures Check(o, "Hello world").correctedText == "Hello world"
    ensures Check(o, "Hello world").withoutErrors
    ensures Check(o, "Hello world").correctedString == []
  {
    assert PlainWord("Hello") && PlainWord("world");
    assert "Hello world" == "Hello" + " " + "world";
    TwoWordsAccepted(o, "Hello", "world");
  }

  /** A run of word characters followed by a non-word character (or nothing) is the first match. */
  lemma WordRunFirst(w: string, t: string)
    requires w != [] && forall i :: 0 <= i < |w| ==> IsWordChar(w[i])
    requires t == [] || !IsWordChar(t[0])
    ensures MatchAll(w + t) == [w] + MatchAll(t)
  {
    var s := w + t;
    assert ClassOf(s[0]) == Word;
    var n := RunLength(s, Word);
    assert forall i :: 0 <= i < |w| ==> s[i] == w[i];
    assert |t| > 0 ==> s[|w|] == t[0];
    assert n == |w|;
    assert s[..n] == w && s[n..] == t;
  }

  /** "a#" has the single part "a": `#` is of neither class. */
  lemma DroppedParts()
    ensures NoSpace("a#") && Parts("a#") == ["a"]
  {
    assert "a#" == "a" + "#";
    WordRunFirst("a", "#");
    MatchAllEmptyIff("#");
  }

  /**
   * A character of neither class is dropped: "a#" with `a` accepted has no
   * marked part, yet its corrected text is "a" and the check is not clean.
   */
  lemma DroppedCharSpoilsCheck(o: Oracle)
    requires o.correct("a")
    ensures Check(o, "a#").correctedText == "a"
    ensures !Check(o, "a#").withoutErrors
    ensures forall i :: 0 <= i < |Segments("a#")| ==> !SegmentFlagged(o, Segments("a#")[i])
  {
    DroppedParts();
    assert StripApostrophes("a") == "a";
    assert !Flagged(o, "a");
    assert CheckParts(o, ["a"]) == ["a"];
    ConcatSingle("a");
    assert CheckSegment(o, "a#") == "a";
    OneSegmentCheck(o, "a#");
    assert RemoveSpaces("a#") == "a#";
    assert RemoveSpaces("a") == "a";
    assert !SegmentFlagged(o, "a#");
  }

  /** Neither the arrow, `#` nor `]` belongs to a class. */
  lemma ArrowTailNoRun()
    ensures MatchAll("\U{2192}#]") == []
  {
  }

  lemma BracketedNoSpace()
    ensures NoSpace("[a\U{2192}#]")
  {
  }

  /** In "[a→#]" the only run is `a`. */
  lemma BracketedParts()
    ensures NoSpace("[a\U{2192}#]")
    ensures Parts("[a\U{2192}#]") == ["a"]
  {
    var s := "[a\U{2192}#]";
    var t := "\U{2192}#]";
    BracketedNoSpace();
    assert ClassOf(s[0]) == Other;
    assert s[1..] == "a" + t;
    WordRunFirst("a", t);
    ArrowTailNoRun();
  }

  /** Rejecting `a` with the single suggestion "#" writes exactly "[a→#]". */
  lemma BracketedMarker(o: Oracle)
    requires !o.correct("a") && o.suggest("a") == ["#"]
    ensures Flagged(o, "a")
    ensures CheckPart(o, "a") == "[a\U{2192}#]"
  {
    assert StripApostrophes("a") == "a";
    assert MarkerTail(["#"]) == "#";
  }

  /**
   * A marked part does not always spoil the check: in "[a→#]" only `a` is a
   * run, and when the oracle rejects it and suggests "#", the marker
   * rebuilds the input exactly, so the check counts as clean.
   */
  lemma FlaggedYetWithoutErrors(o: Oracle)
    requires !o.correct("a") && o.suggest("a") == ["#"]
    ensures Check(o, "[a\U{2192}#]").correctedText == "[a\U{2192}#]"
    ensures Check(o, "[a\U{2192}#]").withoutErrors
    ensures SegmentFlagged(o, Segments("[a\U{2192}#]")[0])
  {
    var s := "[a\U{2192}#]";
    BracketedParts();
    BracketedMarker(o);
    assert Flagged(o, Parts(s)[0]);
    assert CheckParts(o, ["a"]) == [s];
    ConcatSingle(s);
    assert CheckSegment(o, s) == s;
    OneSegmentCheck(o, s);
  }

  /** An input without whitespace is one segment, and its corrected text is that segment checked. */
  lemma OneSegmentCheck(o: Oracle, s: string)
    requires NoSpace(s)
    ensures Segments(s) == [s]
    ensures Check(o, s).checked == [CheckSegment(o, s)]
    ensures Check(o, s).correctedText == CheckSegment(o, s)
  {
    SegmentsOfNoSpace(s);
    ConcatSingle(CheckSegment(o, s));
  }

  /**
   * Only the ASCII space escapes the oracle: two spaces in a row leave an
   * empty piece between them, and that piece is always marked.
   */
  lemma EmptyPieceIsMarked(o: Oracle, a: string, b: string)
    requires NoSpace(a) && NoSpace(b)
    ensures Segments(a + "  " + b) == [a, " ", "", " ", b]
    ensures Check(o, a + "  " + b).checked[2] == Marker("", o.suggest(""))
  {
    DoubleSpaceSegments(a, b);
    EmptyPieceChecked(o);
    var segs := Segments(a + "  " + b);
    assert Check(o, a + "  " + b).checked == CheckSegments(o, segs);
    assert segs[2] == "";
  }

  /** The empty piece has itself as its one part, and its trimmed word is empty. */
  lemma EmptyPieceChecked(o: Oracle)
    ensures CheckSegment(o, "") == Marker("", o.suggest(""))
  {
    assert Parts("") == [""];
    assert StripApostrophes("") == "";
    assert Flagged(o, "");
    assert CheckParts(o, [""]) == [Marker("", o.suggest(""))];
    ConcatSingle(Marker("", o.suggest("")));
  }

  lemma DoubleSpaceSegments(a: string, b: string)
    requires NoSpace(a) && NoSpace(b)
    ensures Segments(a + "  " + b) == [a, " ", "", " ", b]
  {
    assert a + "  " + b == a + [' '] + ([] + [' '] + b);
    SegmentsAfterSpace(a, ' ', [] + [' '] + b);
    SegmentsAfterSpace([], ' ', b);
    SegmentsOfNoSpace(b);
  }

  /** A text that ends in whitespace has an empty last piece, and that piece is always a marker. */
  lemma TrailingWhitespaceIsMarked(o: Oracle, a: string, w: char)
    requires IsSpace(w)
    ensures Segments(a + [w]) == Segments(a) + [[w], []]
    ensures Check(o, a + [w]).checked[|Segments(a)| + 1] == Marker("", o.suggest(""))
  {
    SegmentsEndInSpace(a, w);
    EmptyPieceChecked(o);
    var segs := Segments(a + [w]);
    assert Check(o, a + [w]).checked == CheckSegments(o, segs);
    assert segs[|Segments(a)| + 1] == "";
  }

  /** A text that starts with whitespace has an empty first piece, and that piece is always a marker. */
  lemma LeadingWhitespaceIsMarked(o: Oracle, w: char, a: string)
    requires IsSpace(w)
    ensures Segments([w] + a) == [[], [w]] + Segments(a)
    ensures Check(o, [w] + a).checked[0] == Marker("", o.suggest(""))
  {
    SegmentsStartInSpace(w, a);
    EmptyPieceChecked(o);
    var segs := Segments([w] + a);
    assert Check(o, [w] + a).checked == CheckSegments(o, segs);
    assert segs[0] == "";
  }

  /**
   * A text ending in whitespace whose pieces lose no character is never
   * clean, whatever the dictionary says, since its empty last piece is marked.
   */
  lemma TrailingWhitespaceNeverClean(o: Oracle, a: string, w: char)
    requires IsSpace(w)
    requires forall i :: 0 <= i < |Segments(a)| ==> NoDrop(Segments(a)[i])
    ensures !Check(o, a + [w]).withoutErrors
  {
    var front := Segments(a);
    SegmentsEndInSpace(a, w);
    WhitespacePieceNoDrop(w);
    EmptyPieceFlagged(o);
    AppendedPiecesNoDrop(front, [[w], []]);
    var segs := Segments(a + [w]);
    assert segs[|front| + 1] == [];
    FlaggedPieceSpoilsCheck(o, a + [w], |front| + 1);
  }

  /** Appending pieces that lose no character keeps every piece loss-free. */
  lemma AppendedPiecesNoDrop(front: seq<string>, back: seq<string>)
    requires forall i :: 0 <= i < |front| ==> NoDrop(front[i])
    requires forall i :: 0 <= i < |back| ==> NoDrop(back[i])
    ensures forall i :: 0 <= i < |front + back| ==> NoDrop((front + back)[i])
  {
  }

  /** A single whitespace piece is its own one part. */
  lemma WhitespacePieceNoDrop(w: char)
    requires IsSpace(w)
    ensures NoDrop([w])
  {
    assert ClassOf(w) == Other;
    assert MatchAll([w]) == [] by {
      assert [w][1..] == [];
    }
    ConcatSingle([w]);
  }

  /** The empty piece is its own one part, and that part is marked. */
  lemma EmptyPieceFlagged(o: Oracle)
    ensures NoDrop([]) && SegmentFlagged(o, [])
  {
    assert Parts([]) == [[]];
    ConcatSingle([]);
    assert !IsExempt([]);
    assert Flagged(o, Parts([])[0]);
  }

  /** "Hello world\n" and the like: two plain words followed by a newline are never clean. */
  lemma TrailingNewlineNeverClean(o: Oracle, a: string, b: string)
    requires PlainWord(a) && PlainWord(b)
    ensures !Check(o, a + " " + b + "\n").withoutErrors
  {
    var text := a + " " + b;
    TwoWordsNoDrop(a, b);
    TrailingWhitespaceNeverClean(o, text, '\n');
    assert text + ['\n'] == a + " " + b + "\n";
  }

  /** Two plain words around a space lose no character to the part pattern. */
  lemma TwoWordsNoDrop(a: string, b: string)
    requires PlainWord(a) && PlainWord(b)
    ensures forall i :: 0 <= i < |Segments(a + " " + b)| ==> NoDrop(Segments(a + " " + b)[i])
  {
    PlainWordFacts(a);
    PlainWordFacts(b);
    WordIsOnePart(a);
    WordIsOnePart(b);
    TwoWordSegments(a, b);
    var segs := Segments(a + " " + b);
    assert segs[0] == a && segs[1] == " " && segs[2] == b;
    assert NoDrop(" ");
  }

  /** A newline is not passed through: it is asked about like a word. */
  lemma NewlineGoesToOracle(o: Oracle)
    ensures CheckSegment(o, "\n") == if o.correct("\n") then "\n" else Marker("\n", o.suggest("\n"))
  {
    assert MatchAll("\n") == [];
    assert Parts("\n") == ["\n"];
    assert StripApostrophes("\n") == "\n";
    assert !IsPunctRun("\n");
    ConcatSingle(CheckPart(o, "\n"));
  }
}
