/**
 * The check itself (`handleCheck`, src/pages/index.tsx): every segment of the
 * split text is cut into parts, every part that is not punctuation has its
 * ASCII apostrophes trimmed and is put to the spelling oracle, and a rejected
 * part becomes a `[part→s1|s2]` or `[part→?]` marker. The fragments are joined
 * into the corrected text, and `without_errors` compares the input and the
 * corrected text with all whitespace removed.
 */
module Annotation {
  import opened Wrappers
  import opened Text
  import opened Tokenize
  import opened Records

  /** The dictionary: NSpell's `correct(word)` and `suggest(word)`, left uninterpreted. */
  datatype Oracle = Oracle(correct: string -> bool, suggest: string -> seq<string>)

  /** U+2192, the arrow between the part and its suggestions. */
  const Arrow: char := '\U{2192}'

  // ---------------------------------------------------------------------
  // One part
  // ---------------------------------------------------------------------

  /** `part.match(/^[.,!?;:"\-\(\)…—]+$/)` */
  predicate IsPunctRun(part: string)
  {
    |part| > 0 && forall i :: 0 <= i < |part| ==> IsPunctChar(part[i])
  }

  /** Parts that are returned verbatim without asking the oracle. */
  predicate IsExempt(part: string)
  {
    IsPunctRun(part) || part == "'"
  }

  predicate AllApostrophes(s: string)
  {
    forall k :: 0 <= k < |s| ==> s[k] == '\''
  }

  function StripLeading(s: string): (r: string)
    ensures |r| <= |s| && r == s[|s| - |r|..]
    ensures AllApostrophes(s[..|s| - |r|])
    ensures r == [] || r[0] != '\''
  {
    if s != [] && s[0] == '\'' then
      var r := StripLeading(s[1..]);
      assert s[..|s| - |r|] == [s[0]] + s[1..][..|s| - 1 - |r|];
      r
    else s
  }

  function StripTrailing(s: string): (r: string)
    ensures |r| <= |s| && r == s[..|r|]
    ensures AllApostrophes(s[|r|..])
    ensures r == [] || r[|r| - 1] != '\''
  {
    if s != [] && s[|s| - 1] == '\'' then
      var r := StripTrailing(s[..|s| - 1]);
      assert s[|r|..] == s[..|s| - 1][|r|..] + [s[|s| - 1]];
      r
    else s
  }

  /** `part.replace(/^[']+|[']+$/g, '')` */
  function StripApostrophes(part: string): string
  {
    StripTrailing(StripLeading(part))
  }

  /** `w` sits at `i` in `part` with only ASCII apostrophes around it, and has none at either end. */
  predicate TrimmedAt(part: string, w: string, i: int)
  {
    && 0 <= i <= |part| - |w|
    && w == part[i..i + |w|]
    && AllApostrophes(part[..i])
    && AllApostrophes(part[i + |w|..])
    && (w == [] || (w[0] != '\'' && w[|w| - 1] != '\''))
  }

  /**
   * The trimmed word is the part with a run of ASCII apostrophes removed at
   * each end, and it neither starts nor ends with one.
   */
  lemma StripApostrophesSpec(part: string)
    ensures exists i :: TrimmedAt(part, StripApostrophes(part), i)
  {
    var l := StripLeading(part);
    var w := StripTrailing(l);
    assert w == StripApostrophes(part);
    var i := |part| - |l|;
    assert AllApostrophes(part[..i]);
    assert AllApostrophes(l[|w|..]);
    SliceOfSuffix(part, i, |w|);
    assert TrimmedAt(part, w, i);
  }

  lemma SliceOfSuffix(s: string, i: nat, n: nat)
    requires i + n <= |s|
    ensures s[i..][..n] == s[i..i + n] && s[i..][n..] == s[i + n..]
  {
  }

  /** Whether a part is marked: not exempt, and its trimmed word is empty or rejected. */
  predicate Flagged(o: Oracle, part: string)
  {
    var word := StripApostrophes(part);
    !IsExempt(part) && (word == [] || !o.correct(word))
  }

  /** What follows the arrow in a marker: the suggestions joined by `|`, or `?` for none. */
  function MarkerTail(suggestions: seq<string>): string
  {
    if |suggestions| > 0 then Join(suggestions, "|") else "?"
  }

  /** `[${part}→${suggestions.join('|')}]`, or `[${part}→?]` when there is no suggestion. */
  function Marker(part: string, suggestions: seq<string>): string
  {
    "[" + part + [Arrow] + MarkerTail(suggestions) + "]"
  }

  /** The fragment a part turns into. */
  function CheckPart(o: Oracle, part: string): (r: string)
    ensures IsExempt(part) ==> r == part
    ensures !IsExempt(part) && StripApostrophes(part) == [] ==> r == Marker(part, o.suggest([]))
    ensures !IsExempt(part) && StripApostrophes(part) != [] ==>
              (r == part <==> o.correct(StripApostrophes(part)))
    ensures r != part ==> r == Marker(part, o.suggest(StripApostrophes(part)))
  {
    if Flagged(o, part) then Marker(part, o.suggest(StripApostrophes(part))) else part
  }

  // ---------------------------------------------------------------------
  // Reading a marker back
  // ---------------------------------------------------------------------

  /** The index of the first `c` in `s`, or `|s|` when there is none. */
  function IndexOf(s: string, c: char): (k: nat)
    ensures k <= |s|
    ensures c !in s[..k]
    ensures k < |s| ==> s[k] == c
  {
    if s == [] then 0
    else if s[0] == c then 0
    else
      var k := 1 + IndexOf(s[1..], c);
      assert s[..k] == [s[0]] + s[1..][..k - 1];
      k
  }

  /** Splits a marker into the marked part and its suggestion list (`?` reads as none). */
  function ParseMarker(m: string): Option<(string, seq<string>)>
  {
    if |m| < 2 || m[0] != '[' || m[|m| - 1] != ']' then None
    else
      var inner := m[1..|m| - 1];
      var k := IndexOf(inner, Arrow);
      if k == |inner| then None
      else
        var rest := inner[k + 1..];
        Some((inner[..k], if rest == "?" then [] else SplitOn(rest, '|')))
  }

  lemma {:induction false} JoinWithBar(xs: seq<string>)
    requires |xs| >= 2
    ensures '|' in Join(xs, "|")
  {
  }

  lemma {:induction false} IndexOfAfterFree(a: string, c: char, b: string)
    requires c !in a
    ensures IndexOf(a + [c] + b, c) == |a|
  {
    if a != [] {
      assert (a + [c] + b)[1..] == a[1..] + [c] + b;
      IndexOfAfterFree(a[1..], c, b);
    }
  }

  /** The tail reads back as the suggestion list, unless that list is the single `?`. */
  lemma MarkerTailRoundTrip(suggestions: seq<string>)
    requires forall i :: 0 <= i < |suggestions| ==> '|' !in suggestions[i]
    requires suggestions != ["?"]
    ensures (if MarkerTail(suggestions) == "?" then [] else SplitOn(MarkerTail(suggestions), '|')) == suggestions
  {
    if |suggestions| > 0 {
      if |suggestions| >= 2 {
        JoinWithBar(suggestions);
      }
      SplitJoin(suggestions, '|');
    }
  }

  /** Reading any marker text: the part is what precedes the first arrow, the rest is split on bars. */
  lemma MarkerReadsTail(part: string, tail: string)
    requires Arrow !in part
    ensures ParseMarker("[" + part + [Arrow] + tail + "]") ==
              Some((part, if tail == "?" then [] else SplitOn(tail, '|')))
  {
    var m := "[" + part + [Arrow] + tail + "]";
    var inner := part + [Arrow] + tail;
    assert m == "[" + inner + "]";
    assert m[1..|m| - 1] == inner;
    IndexOfAfterFree(part, Arrow, tail);
    assert inner[..|part|] == part;
    assert inner[|part| + 1..] == tail;
  }

  /**
   * A marker gives back its part and the exact suggestion list, provided the
   * part holds no arrow, no suggestion holds a bar, and the list is not the
   * single suggestion `?` (which prints like an empty list).
   */
  lemma MarkerRoundTrip(part: string, suggestions: seq<string>)
    requires Arrow !in part
    requires forall i :: 0 <= i < |suggestions| ==> '|' !in suggestions[i]
    requires suggestions != ["?"]
    ensures ParseMarker(Marker(part, suggestions)) == Some((part, suggestions))
  {
    MarkerReadsTail(part, MarkerTail(suggestions));
    MarkerTailRoundTrip(suggestions);
  }

  /** The single suggestion `?` prints like no suggestion and reads back as none. */
  lemma QuestionSuggestionReadsAsNone(part: string)
    requires Arrow !in part
    ensures ParseMarker(Marker(part, ["?"])) == Some((part, []))
  {
    assert MarkerTail(["?"]) == "?";
    MarkerReadsTail(part, "?");
  }

  /** A suggestion holding a bar reads back as two suggestions. */
  lemma BarSuggestionSplits()
    ensures ParseMarker(Marker("a", ["b|c"])) == Some(("a", ["b", "c"]))
  {
    assert MarkerTail(["b|c"]) == "b|c";
    MarkerReadsTail("a", "b|c");
    assert Marker("a", ["b|c"]) == "[" + "a" + [Arrow] + "b|c" + "]";
    assert "b|c" == "b" + ['|'] + "c";
    SplitOnAfterFree("b", '|', "c");
    SplitOnFree("c", '|');
    assert SplitOn("b|c", '|') == ["b", "c"];
  }

  /** A part holding an arrow is cut at that arrow. */
  lemma ArrowInPartMisread()
    ensures ParseMarker(Marker([Arrow], [])) == Some(([], [[Arrow, '?']]))
  {
    assert MarkerTail([]) == "?";
    MarkerReadsTail([], [Arrow] + "?");
    assert [] + [Arrow] + ([Arrow] + "?") == [Arrow] + [Arrow] + "?";
    SplitOnFree([Arrow, '?'], '|');
  }

  /** A run found by the pattern never holds an arrow, so its marker always reads back. */
  lemma RunsHoldNoArrow(seg: string)
    ensures forall i :: 0 <= i < |MatchAll(seg)| ==> Arrow !in MatchAll(seg)[i]
  {
  }

  // ---------------------------------------------------------------------
  // Segments and the whole text
  // ---------------------------------------------------------------------

  /** `parts.map(checkPart)` */
  function CheckParts(o: Oracle, parts: seq<string>): (r: seq<string>)
    ensures |r| == |parts|
    ensures forall i :: 0 <= i < |parts| ==> r[i] == CheckPart(o, parts[i])
  {
    if parts == [] then [] else [CheckPart(o, parts[0])] + CheckParts(o, parts[1..])
  }

  /** The fragment for one segment: a single ASCII space stays, anything else goes through its parts. */
  function CheckSegment(o: Oracle, seg: string): string
  {
    if seg == " " then seg else Concat(CheckParts(o, Parts(seg)))
  }

  /** `segments.map(checkSegment)` */
  function CheckSegments(o: Oracle, segs: seq<string>): (r: seq<string>)
    ensures |r| == |segs|
    ensures forall i :: 0 <= i < |segs| ==> r[i] == CheckSegment(o, segs[i])
  {
    if segs == [] then [] else [CheckSegment(o, segs[0])] + CheckSegments(o, segs[1..])
  }

  /** `s.replace(/\s/g, '')` */
  function RemoveSpaces(s: string): string
  {
    if s == [] then [] else (if IsSpace(s[0]) then [] else [s[0]]) + RemoveSpaces(s[1..])
  }

  /**
   * What a check computes: the fragment list `checked`, the corrected text,
   * `without_errors`, and the `corrected_string` that is saved.
   */
  datatype CheckResult = CheckResult(
    checked: seq<string>, correctedText: string, withoutErrors: bool, correctedString: seq<string>)

  function Check(o: Oracle, input: string): CheckResult
  {
    var checked := CheckSegments(o, Segments(input));
    var corrected := Concat(checked);
    var withoutErrors := RemoveSpaces(input) == RemoveSpaces(corrected);
    CheckResult(checked, corrected, withoutErrors, if withoutErrors then [] else checked)
  }

  /**
   * One fragment per piece of `split(/(\s)/)`, in order; the corrected text is
   * their concatenation; only the single ASCII space is kept without a look at
   * the oracle; nothing is saved as `corrected_string` when the check is clean.
   */
  lemma CheckShape(o: Oracle, input: string)
    ensures var r := Check(o, input);
      && |r.checked| == 2 * CountSpaces(input) + 1
      && (forall i :: 0 <= i < |r.checked| ==> r.checked[i] == CheckSegment(o, Segments(input)[i]))
      && (forall i :: 0 <= i < |r.checked| && Segments(input)[i] == " " ==> r.checked[i] == " ")
      && r.correctedText == Concat(r.checked)
      && (r.withoutErrors <==> RemoveSpaces(input) == RemoveSpaces(r.correctedText))
      && r.correctedString == (if r.withoutErrors then [] else r.checked)
  {
  }

  // ---------------------------------------------------------------------
  // When is a check "without errors"?
  // ---------------------------------------------------------------------

  /** The parts of the segment put together give the segment back: no character was dropped. */
  predicate NoDrop(seg: string)
  {
    seg == " " || Concat(Parts(seg)) == seg
  }

  predicate SegmentFlagged(o: Oracle, seg: string)
  {
    seg != " " && exists i :: 0 <= i < |Parts(seg)| && Flagged(o, Parts(seg)[i])
  }

  lemma {:induction false} RemoveSpacesAppend(a: string, b: string)
    ensures RemoveSpaces(a + b) == RemoveSpaces(a) + RemoveSpaces(b)
  {
    if a == [] {
      assert a + b == b;
    } else {
      assert (a + b)[1..] == a[1..] + b;
      RemoveSpacesAppend(a[1..], b);
    }
  }

  /** The visible characters of a concatenation, first string first. */
  lemma VisibleOfFirst(xs: seq<string>)
    requires xs != []
    ensures |RemoveSpaces(Concat(xs))| == |RemoveSpaces(xs[0])| + |RemoveSpaces(Concat(xs[1..]))|
  {
    RemoveSpacesAppend(xs[0], Concat(xs[1..]));
  }

  /** The counting step of the growth lemma, on plain numbers. */
  lemma GrowStep(big: int, bigRest: int, small: int, smallRest: int, head: bool, inRest: bool, any: bool)
    requires big >= small && bigRest >= smallRest
    requires head ==> big > small
    requires inRest ==> bigRest > smallRest
    requires any ==> head || inRest
    ensures big + bigRest >= small + smallRest
    ensures any ==> big + bigRest > small + smallRest
  {
  }

  /** A marker keeps the part's visible characters and adds at least the brackets and the arrow. */
  lemma MarkerGrows(part: string, suggestions: seq<string>)
    ensures |RemoveSpaces(Marker(part, suggestions))| >= |RemoveSpaces(part)| + 3
  {
    var tail := MarkerTail(suggestions);
    assert Marker(part, suggestions) == "[" + part + ([Arrow] + tail + "]");
    RemoveSpacesAppend("[" + part, [Arrow] + tail + "]");
    RemoveSpacesAppend("[", part);
    RemoveSpacesAppend([Arrow] + tail, "]");
    RemoveSpacesAppend([Arrow], tail);
    assert RemoveSpaces("[") == "[";
    assert RemoveSpaces("]") == "]";
    assert RemoveSpaces([Arrow]) == [Arrow];
  }

  /** A marker keeps the part's visible characters and adds at least the brackets and the arrow. */
  lemma PartGrows(o: Oracle, part: string)
    ensures |RemoveSpaces(CheckPart(o, part))| >= |RemoveSpaces(part)|
    ensures Flagged(o, part) ==> |RemoveSpaces(CheckPart(o, part))| > |RemoveSpaces(part)|
  {
    if Flagged(o, part) {
      MarkerGrows(part, o.suggest(StripApostrophes(part)));
    }
  }

  /**
   * Fragment by fragment growth adds up: when every fragment of `ys` has at
   * least the visible characters of its counterpart in `xs`, and the flagged
   * ones strictly more, so do their concatenations, strictly when one is flagged.
   */
  lemma {:induction false} VisibleGrowth(xs: seq<string>, ys: seq<string>, flags: seq<bool>)
    requires |ys| == |xs| && |flags| == |xs|
    requires forall i :: 0 <= i < |xs| ==> |RemoveSpaces(ys[i])| >= |RemoveSpaces(xs[i])|
    requires forall i :: 0 <= i < |xs| && flags[i] ==> |RemoveSpaces(ys[i])| > |RemoveSpaces(xs[i])|
    ensures |RemoveSpaces(Concat(ys))| >= |RemoveSpaces(Concat(xs))|
    ensures true in flags ==> |RemoveSpaces(Concat(ys))| > |RemoveSpaces(Concat(xs))|
  {
    if xs != [] {
      var xt, yt, ft := xs[1..], ys[1..], flags[1..];
      forall i | 0 <= i < |xt| ensures |RemoveSpaces(yt[i])| >= |RemoveSpaces(xt[i])| {
        assert xt[i] == xs[i + 1] && yt[i] == ys[i + 1];
      }
      forall i | 0 <= i < |xt| && ft[i] ensures |RemoveSpaces(yt[i])| > |RemoveSpaces(xt[i])| {
        assert xt[i] == xs[i + 1] && yt[i] == ys[i + 1] && ft[i] == flags[i + 1];
      }
      VisibleGrowth(xt, yt, ft);
      VisibleOfFirst(xs);
      VisibleOfFirst(ys);
      if true in flags && !flags[0] {
        var i :| 0 <= i < |flags| && flags[i];
        assert ft[i - 1];
      }
      GrowStep(|RemoveSpaces(ys[0])|, |RemoveSpaces(Concat(yt))|, |RemoveSpaces(xs[0])|, |RemoveSpaces(Concat(xt))|,
               flags[0], true in ft, true in flags);
    }
  }

  lemma PartsGrow(o: Oracle, parts: seq<string>)
    ensures |RemoveSpaces(Concat(CheckParts(o, parts)))| >= |RemoveSpaces(Concat(parts))|
    ensures (exists i :: 0 <= i < |parts| && Flagged(o, parts[i])) ==>
              |RemoveSpaces(Concat(CheckParts(o, parts)))| > |RemoveSpaces(Concat(parts))|
  {
    var checked := CheckParts(o, parts);
    var flags := seq(|parts|, i requires 0 <= i < |parts| => Flagged(o, parts[i]));
    forall i | 0 <= i < |parts|
      ensures |RemoveSpaces(checked[i])| >= |RemoveSpaces(parts[i])|
      ensures flags[i] ==> |RemoveSpaces(checked[i])| > |RemoveSpaces(parts[i])|
    {
      PartGrows(o, parts[i]);
    }
    VisibleGrowth(parts, checked, flags);
    if exists i :: 0 <= i < |parts| && Flagged(o, parts[i]) {
      var i :| 0 <= i < |parts| && Flagged(o, parts[i]);
      assert flags[i];
    }
  }

  /** When no part is marked, the parts come back as they were. */
  lemma {:induction false} PartsUnchanged(o: Oracle, parts: seq<string>)
    requires forall i :: 0 <= i < |parts| ==> !Flagged(o, parts[i])
    ensures CheckParts(o, parts) == parts
  {
  }

  lemma SegmentGrows(o: Oracle, seg: string)
    requires NoDrop(seg)
    ensures |RemoveSpaces(CheckSegment(o, seg))| >= |RemoveSpaces(seg)|
    ensures SegmentFlagged(o, seg) ==> |RemoveSpaces(CheckSegment(o, seg))| > |RemoveSpaces(seg)|
    ensures !SegmentFlagged(o, seg) ==> CheckSegment(o, seg) == seg
  {
    if seg != " " {
      PartsGrow(o, Parts(seg));
      if !SegmentFlagged(o, seg) {
        PartsUnchanged(o, Parts(seg));
      }
    }
  }

  lemma SegmentsGrow(o: Oracle, segs: seq<string>)
    requires forall i :: 0 <= i < |segs| ==> NoDrop(segs[i])
    ensures |RemoveSpaces(Concat(CheckSegments(o, segs)))| >= |RemoveSpaces(Concat(segs))|
    ensures (exists i :: 0 <= i < |segs| && SegmentFlagged(o, segs[i])) ==>
              |RemoveSpaces(Concat(CheckSegments(o, segs)))| > |RemoveSpaces(Concat(segs))|
  {
    var checked := CheckSegments(o, segs);
    var flags := seq(|segs|, i requires 0 <= i < |segs| => SegmentFlagged(o, segs[i]));
    forall i | 0 <= i < |segs|
      ensures |RemoveSpaces(checked[i])| >= |RemoveSpaces(segs[i])|
      ensures flags[i] ==> |RemoveSpaces(checked[i])| > |RemoveSpaces(segs[i])|
    {
      SegmentGrows(o, segs[i]);
    }
    VisibleGrowth(segs, checked, flags);
    if exists i :: 0 <= i < |segs| && SegmentFlagged(o, segs[i]) {
      var i :| 0 <= i < |segs| && SegmentFlagged(o, segs[i]);
      assert flags[i];
    }
  }

  /** When no segment drops a character and none is marked, the segments come back as they were. */
  lemma SegmentsUnchanged(o: Oracle, segs: seq<string>)
    requires forall i :: 0 <= i < |segs| ==> NoDrop(segs[i]) && !SegmentFlagged(o, segs[i])
    ensures CheckSegments(o, segs) == segs
  {
    var checked := CheckSegments(o, segs);
    forall i | 0 <= i < |segs| ensures checked[i] == segs[i] {
      SegmentGrows(o, segs[i]);
    }
  }

  /**
   * When no segment loses a character to the part pattern, the check is
   * without errors exactly when no part is marked, and then the corrected
   * text is the input itself.
   */
  lemma WithoutErrorsIffNoFlag(o: Oracle, input: string)
    requires forall i :: 0 <= i < |Segments(input)| ==> NoDrop(Segments(input)[i])
    ensures Check(o, input).withoutErrors <==>
              forall i :: 0 <= i < |Segments(input)| ==> !SegmentFlagged(o, Segments(input)[i])
    ensures (forall i :: 0 <= i < |Segments(input)| ==> !SegmentFlagged(o, Segments(input)[i])) ==>
              Check(o, input).correctedText == input && Check(o, input).correctedString == []
  {
    SegmentsSpec(input);
    SegmentsGrow(o, Segments(input));
    if forall i :: 0 <= i < |Segments(input)| ==> !SegmentFlagged(o, Segments(input)[i]) {
      SegmentsUnchanged(o, Segments(input));
    }
  }

  /** When no piece drops a character, one marked piece is enough to make the check unclean. */
  lemma FlaggedPieceSpoilsCheck(o: Oracle, input: string, k: int)
    requires forall i :: 0 <= i < |Segments(input)| ==> NoDrop(Segments(input)[i])
    requires 0 <= k < |Segments(input)| && SegmentFlagged(o, Segments(input)[k])
    ensures !Check(o, input).withoutErrors
  {
    WithoutErrorsIffNoFlag(o, input);
  }

  // ---------------------------------------------------------------------
  // The saved record
  // ---------------------------------------------------------------------

  /** The signed-in user as far as the record needs it (each field may be missing or empty). */
  datatype AuthUser = AuthUser(email: Option<string>, uid: Option<string>, displayName: Option<string>)

  function UserEmail(user: Option<AuthUser>): Option<string>
  {
    if user.Some? then user.value.email else None
  }

  function UserUid(user: Option<AuthUser>): Option<string>
  {
    if user.Some? then user.value.uid else None
  }

  function UserName(user: Option<AuthUser>): Option<string>
  {
    if user.Some? then user.value.displayName else None
  }

  /** `new Timestamp(Math.floor(ms / 1000), 0)`: the clock reading rounded down to a whole second. */
  function WholeSeconds(ms: int): (t: int)
    ensures t % 1000 == 0 && ms - 1000 < t <= ms
  {
    (ms / 1000) * 1000
  }

  /**
   * The document `handleCheck` adds to the store, or nothing when no
   * dictionary is loaded yet. `nowMs` is the clock reading; the stored
   * creation time keeps whole seconds only.
   */
  function SavedCheck(spell: Option<Oracle>, input: string, lang: string, nowMs: int, user: Option<AuthUser>)
    : (rec: Option<SpellCheck>)
    ensures rec.Some? <==> spell.Some?
    ensures rec.Some? ==>
      var r := Check(spell.value, input);
      && rec.value.originalString == input
      && rec.value.language == lang
      && rec.value.withoutErrors == r.withoutErrors
      && rec.value.correctedString == Fragments(if r.withoutErrors then [] else r.checked)
      && rec.value.expire.None? && rec.value.shared.None? && rec.value.id.None?
      && rec.value.createdAt == Some(WholeSeconds(nowMs))
      && rec.value.userEmail == Some(if Truthy(UserEmail(user)) then UserEmail(user).value else "unknown")
      && rec.value.userName == Some(if Truthy(UserName(user)) then UserName(user).value else "Anonymous")
      && rec.value.userUid == Some(if Truthy(UserUid(user)) then UserUid(user).value else "unknown")
      && rec.value.ownerUid.None?
  {
    if spell.None? then None
    else
      var r := Check(spell.value, input);
      Some(SpellCheck(
        correctedString := Fragments(r.correctedString),
        expire := None,
        createdAt := Some(WholeSeconds(nowMs)),
        id := None,
        originalString := input,
        withoutErrors := r.withoutErrors,
        ownerUid := None,
        language := lang,
        shared := None,
        userEmail := Some(OrElse(UserEmail(user), "unknown")),
        userUid := Some(OrElse(UserUid(user), "unknown")),
        userName := Some(OrElse(UserName(user), "Anonymous"))))
  }
}
