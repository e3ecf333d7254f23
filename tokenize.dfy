/**
 * The two regular-expression steps of the check (src/pages/index.tsx):
 * `inputText.split(/(\s)/)`, which cuts the text at every single whitespace
 * character and keeps that character as a piece of its own, and
 * `segment.match(/[word]+|[punct]+|[']/g) || [segment]`, which cuts a piece
 * into runs of word characters and runs of punctuation.
 */
module Tokenize {
  import opened Text

  // ---------------------------------------------------------------------
  // Character classes
  // ---------------------------------------------------------------------

  /** `\s` of an ECMAScript regular expression: WhiteSpace and LineTerminator code points. */
  predicate IsSpace(c: char)
  {
    || c == '\t' || c == '\n' || c == '\U{B}' || c == '\U{C}' || c == '\r' || c == ' '
    || c == '\U{A0}' || c == '\U{1680}' || ('\U{2000}' <= c <= '\U{200A}')
    || c == '\U{2028}' || c == '\U{2029}' || c == '\U{202F}' || c == '\U{205F}'
    || c == '\U{3000}' || c == '\U{FEFF}'
  }

  /**
   * `[\wʼ'`'А-ЯҐЄІЇа-яґєії]`: ASCII letters, digits and `_` (`\w` without the
   * `u` flag), the modifier apostrophe U+02BC, the ASCII apostrophe, the
   * backtick, and the Cyrillic letters А..я plus Ґ Є І Ї ґ є і ї.
   */
  predicate IsWordChar(c: char)
  {
    || ('a' <= c <= 'z') || ('A' <= c <= 'Z') || ('0' <= c <= '9') || c == '_'
    || c == '\U{2BC}' || c == '\'' || c == '`'
    || ('\U{410}' <= c <= '\U{42F}') || ('\U{430}' <= c <= '\U{44F}')
    || c == '\U{490}' || c == '\U{404}' || c == '\U{406}' || c == '\U{407}'
    || c == '\U{491}' || c == '\U{454}' || c == '\U{456}' || c == '\U{457}'
  }

  /** `[.,!?;:"\-\(\)…—]` */
  predicate IsPunctChar(c: char)
  {
    || c == '.' || c == ',' || c == '!' || c == '?' || c == ';' || c == ':'
    || c == '"' || c == '-' || c == '(' || c == ')' || c == '\U{2026}' || c == '\U{2014}'
  }

  datatype CharClass = Word | Punct | Other

  /**
   * The two classes are disjoint, and the ASCII apostrophe is a word
   * character, so the pattern's third alternative `[']` never gets to match.
   */
  function ClassOf(c: char): (k: CharClass)
    ensures k == Word <==> IsWordChar(c)
    ensures k == Punct <==> IsPunctChar(c)
  {
    if IsWordChar(c) then Word else if IsPunctChar(c) then Punct else Other
  }

  // ---------------------------------------------------------------------
  // split(/(\s)/)
  // ---------------------------------------------------------------------

  predicate NoSpace(x: string)
  {
    forall j :: 0 <= j < |x| ==> !IsSpace(x[j])
  }

  predicate IsSeparator(x: string)
  {
    |x| == 1 && IsSpace(x[0])
  }

  /**
   * What `split` with a capturing separator promises: an odd number of
   * pieces that give back the text, the odd-numbered ones the single
   * whitespace characters and the even-numbered ones the (possibly empty)
   * text between them.
   */
  ghost predicate IsSplitOf(segs: seq<string>, s: string)
  {
    && |segs| % 2 == 1
    && Concat(segs) == s
    && forall i :: 0 <= i < |segs| ==> if i % 2 == 1 then IsSeparator(segs[i]) else NoSpace(segs[i])
  }

  function CountSpaces(s: string): nat
  {
    if s == [] then 0 else (if IsSpace(s[0]) then 1 else 0) + CountSpaces(s[1..])
  }

  /** `s.split(/(\s)/)`. */
  function Segments(s: string): seq<string>
  {
    if s == [] then [[]]
    else
      var rest := Segments(s[1..]);
      if IsSpace(s[0]) then [[], [s[0]]] + rest else [[s[0]] + rest[0]] + rest[1..]
  }

  /** The pieces are a split of the text, two per whitespace character plus one. */
  lemma SegmentsSpec(s: string)
    ensures IsSplitOf(Segments(s), s)
    ensures |Segments(s)| == 2 * CountSpaces(s) + 1
  {
  }

  lemma {:induction false} SegmentsCount(s: string)
    ensures |Segments(s)| == 2 * CountSpaces(s) + 1
  {
    if s != [] {
      SegmentsCount(s[1..]);
    }
  }

  lemma {:induction false} SegmentsConcat(s: string)
    ensures Concat(Segments(s)) == s
  {
    if s != [] {
      var rest := Segments(s[1..]);
      SegmentsConcat(s[1..]);
      assert [s[0]] + s[1..] == s;
      if IsSpace(s[0]) {
        assert Segments(s) == [[]] + ([[s[0]]] + rest);
        ConcatCons([], [[s[0]]] + rest);
        ConcatCons([s[0]], rest);
      } else {
        SegmentsCount(s[1..]);
        assert Segments(s) == [[s[0]] + rest[0]] + rest[1..];
        ConcatMerge(s[0], rest[0], rest[1..]);
        assert [rest[0]] + rest[1..] == rest;
      }
    }
  }

  lemma {:induction false} SegmentsShape(s: string)
    ensures forall i :: 0 <= i < |Segments(s)| ==>
              if i % 2 == 1 then IsSeparator(Segments(s)[i]) else NoSpace(Segments(s)[i])
  {
    if s != [] {
      var rest := Segments(s[1..]);
      SegmentsShape(s[1..]);
      var segs := Segments(s);
      if IsSpace(s[0]) {
        assert segs == [[], [s[0]]] + rest;
        forall i | 0 <= i < |segs|
          ensures if i % 2 == 1 then IsSeparator(segs[i]) else NoSpace(segs[i])
        {
          if i >= 2 {
            assert segs[i] == rest[i - 2];
          }
        }
      } else {
        assert segs == [[s[0]] + rest[0]] + rest[1..];
        forall i | 0 <= i < |segs|
          ensures if i % 2 == 1 then IsSeparator(segs[i]) else NoSpace(segs[i])
        {
          if i >= 1 {
            assert segs[i] == rest[i];
          } else {
            assert NoSpace(rest[0]);
          }
        }
      }
    }
  }

  lemma {:induction false} SegmentsOfNoSpace(a: string)
    requires NoSpace(a)
    ensures Segments(a) == [a]
  {
    if a != [] {
      SegmentsOfNoSpace(a[1..]);
      assert [a[0]] + a[1..] == a;
    }
  }

  /** Ending in whitespace leaves an empty last piece. */
  lemma SegmentsEndInSpace(a: string, w: char)
    requires IsSpace(w)
    ensures Segments(a + [w]) == Segments(a) + [[w], []]
  {
    SegmentsSpec(a);
    SplitOfSnoc(Segments(a), a, w);
    SplitIsUnique(Segments(a) + [[w], []], a + [w]);
  }

  /** A split of a text, then the whitespace and an empty piece, is a split of the text with the whitespace appended. */
  lemma SplitOfSnoc(front: seq<string>, a: string, w: char)
    requires IsSplitOf(front, a) && IsSpace(w)
    ensures IsSplitOf(front + [[w], []], a + [w])
  {
    var segs := front + [[w], []];
    ConcatAppend(front, [[w], []]);
    assert Concat([[w], []]) == [w] by {
      ConcatCons([w], [[]]);
      ConcatSingle([]);
      assert [[w]] + [[]] == [[w], []];
    }
    forall i | 0 <= i < |segs|
      ensures if i % 2 == 1 then IsSeparator(segs[i]) else NoSpace(segs[i])
    {
      if i < |front| {
        assert segs[i] == front[i];
      }
    }
  }

  /** Starting with whitespace leaves an empty first piece. */
  lemma SegmentsStartInSpace(w: char, a: string)
    requires IsSpace(w)
    ensures Segments([w] + a) == [[], [w]] + Segments(a)
  {
  }

  lemma {:induction false} SegmentsAfterSpace(a: string, w: char, t: string)
    requires NoSpace(a) && IsSpace(w)
    ensures Segments(a + [w] + t) == [a, [w]] + Segments(t)
  {
    if a == [] {
      assert a + [w] + t == [w] + t;
      assert ([w] + t)[1..] == t;
    } else {
      assert (a + [w] + t)[0] == a[0];
      assert (a + [w] + t)[1..] == a[1..] + [w] + t;
      SegmentsAfterSpace(a[1..], w, t);
      assert [a[0]] + a[1..] == a;
    }
  }

  /** `Segments` is the only split of a text: any sequence with the split's shape is it. */
  lemma {:induction false} SplitIsUnique(segs: seq<string>, s: string)
    requires IsSplitOf(segs, s)
    ensures segs == Segments(s)
    decreases |segs|
  {
    if |segs| == 1 {
      ConcatSingle(segs[0]);
      SegmentsOfNoSpace(s);
    } else {
      var rest := segs[2..];
      assert segs == [segs[0], segs[1]] + rest;
      ConcatAppend([segs[0], segs[1]], rest);
      assert Concat([segs[0], segs[1]]) == segs[0] + segs[1] by {
        assert [segs[0], segs[1]][1..] == [segs[1]];
        ConcatSingle(segs[1]);
      }
      assert segs[1] == [segs[1][0]];
      forall i | 0 <= i < |rest|
        ensures if i % 2 == 1 then IsSeparator(rest[i]) else NoSpace(rest[i])
      {
        assert rest[i] == segs[i + 2];
      }
      SplitIsUnique(rest, Concat(rest));
      SegmentsAfterSpace(segs[0], segs[1][0], Concat(rest));
    }
  }

  // ---------------------------------------------------------------------
  // match(/[word]+|[punct]+|[']/g) || [segment]
  // ---------------------------------------------------------------------

  /** How many leading characters a greedy `[class]+` takes: the longest prefix of class `k`. */
  function RunLength(s: string, k: CharClass): (n: nat)
    ensures n <= |s|
    ensures forall i :: 0 <= i < n ==> ClassOf(s[i]) == k
    ensures n < |s| ==> ClassOf(s[n]) != k
  {
    if s == [] || ClassOf(s[0]) != k then 0 else 1 + RunLength(s[1..], k)
  }

  /**
   * The matches of the global pattern, left to right: at each position the
   * word alternative is tried, then the punctuation alternative, and a
   * character neither accepts is skipped.
   */
  function MatchAll(s: string): seq<string>
    decreases |s|
  {
    if s == [] then []
    else if ClassOf(s[0]) == Other then MatchAll(s[1..])
    else
      var n := RunLength(s, ClassOf(s[0]));
      [s[..n]] + MatchAll(s[n..])
  }

  /** `segment.match(...) || [segment]`: a segment with no run at all is its own single part. */
  function Parts(seg: string): seq<string>
  {
    var m := MatchAll(seg);
    if m == [] then [seg] else m
  }

  // Reference definition: maximal runs of one class, found one character at a time.

  predicate Uniform(x: string)
  {
    x != [] && forall i :: 0 < i < |x| ==> ClassOf(x[i]) == ClassOf(x[0])
  }

  /** The text cut into groups of characters of one class, one character at a time. */
  function Groups(s: string): (gs: seq<string>)
    ensures forall i :: 0 <= i < |gs| ==> gs[i] != []
    ensures s != [] ==> gs != [] && gs[0][0] == s[0]
  {
    if s == [] then []
    else
      var g := Groups(s[1..]);
      if g != [] && ClassOf(g[0][0]) == ClassOf(s[0]) then
        [[s[0]] + g[0]] + g[1..]
      else
        [[s[0]]] + g
  }

  /**
   * The groups are the maximal runs of one class: they give back the text,
   * each is non-empty and of one class, and neighbours differ in class.
   */
  lemma GroupsSpec(s: string)
    ensures Concat(Groups(s)) == s
    ensures forall i :: 0 <= i < |Groups(s)| ==> Uniform(Groups(s)[i])
    ensures forall i :: 0 < i < |Groups(s)| ==> ClassOf(Groups(s)[i - 1][0]) != ClassOf(Groups(s)[i][0])
  {
  }

  lemma {:induction false} GroupsConcat(s: string)
    ensures Concat(Groups(s)) == s
  {
    if s != [] {
      var g := Groups(s[1..]);
      GroupsConcat(s[1..]);
      var r := Groups(s);
      assert [s[0]] + s[1..] == s;
      if g != [] && ClassOf(g[0][0]) == ClassOf(s[0]) {
        assert r == [[s[0]] + g[0]] + g[1..];
        ConcatMerge(s[0], g[0], g[1..]);
        assert [g[0]] + g[1..] == g;
      } else {
        assert r == [[s[0]]] + g;
        ConcatCons([s[0]], g);
      }
    }
  }

  lemma {:induction false} GroupsUniform(s: string)
    ensures forall i :: 0 <= i < |Groups(s)| ==> Uniform(Groups(s)[i])
  {
    if s != [] {
      var g := Groups(s[1..]);
      GroupsUniform(s[1..]);
      var r := Groups(s);
      if g != [] && ClassOf(g[0][0]) == ClassOf(s[0]) {
        assert r == [[s[0]] + g[0]] + g[1..];
        forall i | 0 < i < |r|
          ensures Uniform(r[i])
        {
          assert r[i] == g[i];
        }
        assert Uniform(r[0]) by {
          assert Uniform(g[0]);
          forall j | 0 < j < |r[0]|
            ensures ClassOf(r[0][j]) == ClassOf(r[0][0])
          {
            assert r[0][j] == g[0][j - 1];
          }
        }
      } else {
        assert r == [[s[0]]] + g;
        forall i | 0 < i < |r|
          ensures Uniform(r[i])
        {
          assert r[i] == g[i - 1];
        }
      }
    }
  }

  lemma {:induction false} GroupsAlternate(s: string)
    ensures forall i :: 0 < i < |Groups(s)| ==> ClassOf(Groups(s)[i - 1][0]) != ClassOf(Groups(s)[i][0])
  {
    if s != [] {
      var g := Groups(s[1..]);
      GroupsAlternate(s[1..]);
      var r := Groups(s);
      if g != [] && ClassOf(g[0][0]) == ClassOf(s[0]) {
        assert r == [[s[0]] + g[0]] + g[1..];
        forall i | 0 < i < |r|
          ensures ClassOf(r[i - 1][0]) != ClassOf(r[i][0])
        {
          assert r[i] == g[i];
          assert ClassOf(r[i - 1][0]) == ClassOf(g[i - 1][0]);
        }
      } else {
        assert r == [[s[0]]] + g;
        forall i | 0 < i < |r|
          ensures ClassOf(r[i - 1][0]) != ClassOf(r[i][0])
        {
          assert r[i] == g[i - 1];
          if i > 1 {
            assert r[i - 1] == g[i - 2];
          }
        }
      }
    }
  }

  /** The groups that are runs of the word or punctuation class. */
  function RunGroups(gs: seq<string>): seq<string>
    requires forall i :: 0 <= i < |gs| ==> gs[i] != []
  {
    if gs == [] then []
    else if ClassOf(gs[0][0]) == Other then RunGroups(gs[1..])
    else [gs[0]] + RunGroups(gs[1..])
  }

  /** The characters of `s` that belong to the word or punctuation class. */
  function RunChars(s: string): string
  {
    if s == [] then [] else (if ClassOf(s[0]) == Other then [] else [s[0]]) + RunChars(s[1..])
  }

  lemma {:induction false} GroupsAfterRun(s: string, n: nat)
    requires 0 < n <= |s|
    requires forall i :: 0 <= i < n ==> ClassOf(s[i]) == ClassOf(s[0])
    requires n < |s| ==> ClassOf(s[n]) != ClassOf(s[0])
    ensures Groups(s) == [s[..n]] + Groups(s[n..])
  {
    var g := Groups(s[1..]);
    if n == 1 {
      assert s[1..] == s[n..];
      assert [s[0]] == s[..n];
    } else {
      var t := s[1..];
      forall i | 0 <= i < n - 1 ensures ClassOf(t[i]) == ClassOf(t[0]) {
        assert t[i] == s[i + 1] && t[0] == s[1];
      }
      assert n - 1 < |t| ==> t[n - 1] == s[n];
      GroupsAfterRun(t, n - 1);
      assert t[n - 1..] == s[n..];
      GroupsPrepend(s, t[..n - 1], Groups(s[n..]));
      assert [s[0]] + t[..n - 1] == s[..n];
    }
  }

  /** A first character of the same class as the next joins the first group. */
  lemma GroupsPrepend(s: string, run: string, tail: seq<string>)
    requires |s| >= 2 && ClassOf(s[1]) == ClassOf(s[0])
    requires Groups(s[1..]) == [run] + tail
    ensures Groups(s) == [[s[0]] + run] + tail
  {
  }

  lemma HeadTail(x: string, t: seq<string>)
    ensures ([x] + t)[0] == x && ([x] + t)[1..] == t
  {
  }

  lemma {:induction false} GroupsAfterOther(s: string)
    requires s != [] && ClassOf(s[0]) == Other
    ensures RunGroups(Groups(s)) == RunGroups(Groups(s[1..]))
  {
  }

  /**
   * The matches are exactly the maximal word runs and punctuation runs, in
   * order; characters of neither class fall between matches.
   */
  lemma {:induction false} MatchAllIsMaximalRuns(s: string)
    ensures MatchAll(s) == RunGroups(Groups(s))
    decreases |s|
  {
    if s != [] {
      if ClassOf(s[0]) == Other {
        MatchAllIsMaximalRuns(s[1..]);
        GroupsAfterOther(s);
      } else {
        var n := RunLength(s, ClassOf(s[0]));
        MatchAllIsMaximalRuns(s[n..]);
        GroupsAfterRun(s, n);
        var gs := Groups(s);
        assert gs[0] == s[..n] && gs[1..] == Groups(s[n..]);
      }
    }
  }

  /** Every match is a non-empty run of word characters or of punctuation. */
  lemma {:induction false} MatchAllRuns(s: string)
    ensures forall i :: 0 <= i < |MatchAll(s)| ==> Uniform(MatchAll(s)[i]) && ClassOf(MatchAll(s)[i][0]) != Other
    decreases |s|
  {
    if s != [] {
      if ClassOf(s[0]) == Other {
        MatchAllRuns(s[1..]);
      } else {
        var n := RunLength(s, ClassOf(s[0]));
        MatchAllRuns(s[n..]);
        var m := MatchAll(s);
        assert m == [s[..n]] + MatchAll(s[n..]);
        forall i | 0 <= i < |m|
          ensures Uniform(m[i]) && ClassOf(m[i][0]) != Other
        {
          if i > 0 {
            assert m[i] == MatchAll(s[n..])[i - 1];
          }
        }
      }
    }
  }

  lemma {:induction false} RunCharsAppend(a: string, b: string)
    ensures RunChars(a + b) == RunChars(a) + RunChars(b)
  {
    if a == [] {
      assert a + b == b;
    } else {
      var head := if ClassOf(a[0]) == Other then [] else [a[0]];
      assert (a + b)[0] == a[0] && (a + b)[1..] == a[1..] + b;
      assert RunChars(a + b) == head + RunChars(a[1..] + b);
      RunCharsAppend(a[1..], b);
    }
  }

  lemma {:induction false} RunCharsOfRun(s: string, k: CharClass)
    requires k != Other
    requires forall i :: 0 <= i < |s| ==> ClassOf(s[i]) == k
    ensures RunChars(s) == s
  {
    if s != [] {
      RunCharsOfRun(s[1..], k);
      assert [s[0]] + s[1..] == s;
    }
  }

  /** The matches, put together, are the text with every character of neither class removed. */
  lemma {:induction false} MatchAllDropsOthers(s: string)
    ensures Concat(MatchAll(s)) == RunChars(s)
    decreases |s|
  {
    if s != [] {
      if ClassOf(s[0]) != Other {
        var n := RunLength(s, ClassOf(s[0]));
        MatchAllDropsOthers(s[n..]);
        assert s == s[..n] + s[n..];
        RunCharsAppend(s[..n], s[n..]);
        RunCharsOfRun(s[..n], ClassOf(s[0]));
        assert MatchAll(s) == [s[..n]] + MatchAll(s[n..]);
        assert ([s[..n]] + MatchAll(s[n..]))[1..] == MatchAll(s[n..]);
      } else {
        MatchAllDropsOthers(s[1..]);
      }
    }
  }

  /** There is no match exactly when no character of the text is of either class. */
  lemma {:induction false} MatchAllEmptyIff(s: string)
    ensures MatchAll(s) == [] <==> forall i :: 0 <= i < |s| ==> ClassOf(s[i]) == Other
    decreases |s|
  {
    if s != [] {
      if ClassOf(s[0]) == Other {
        MatchAllEmptyIff(s[1..]);
        assert forall i :: 0 < i < |s| ==> s[i] == s[1..][i - 1];
      }
    }
  }

  /**
   * The parts of a segment: its maximal runs when it has one (other
   * characters dropped), otherwise the whole segment as one part.
   */
  lemma PartsSpec(seg: string)
    ensures (exists i :: 0 <= i < |seg| && ClassOf(seg[i]) != Other) ==>
              Parts(seg) == RunGroups(Groups(seg)) && Concat(Parts(seg)) == RunChars(seg)
    ensures (forall i :: 0 <= i < |seg| ==> ClassOf(seg[i]) == Other) ==> Parts(seg) == [seg]
  {
    MatchAllEmptyIff(seg);
    MatchAllIsMaximalRuns(seg);
    MatchAllDropsOthers(seg);
  }
}
