/**
  The HTML clean-up `sanitizeHTMLContent`: seven stages, each a fixed
  sequence of global regular-expression replacements, then `trim`.

  The properties proved here are about the final text: no tab, vertical tab,
  form feed, carriage return or no-break space; no two blanks side by side;
  no white space at either end; and no white space, not even another line
  break, in front of a line break. The last one means that a blank line
  never survives (see `NoBlankLineSurvives`); `SanitizeIntended` is the
  clean-up with that line-end rule narrowed to spaces and tabs, which keeps
  one blank line and caps longer runs.
 */
module Sanitizer {
  import opened JsonValues
  import opened Text
  import opened Rewrite

  // ---------------------------------------------------------------------
  // The stages, in the order the clean-up runs them

  /** Step 1: script, style and table blocks and images. */
  function RemoveHeavyBlocks(s: string): string
  {
    Replace(ImgTag, Replace(TableBlock, Replace(StyleBlock, Replace(ScriptBlock, s))))
  }

  /** Step 2: `<br>` and block ends become line breaks, list items become `- `. */
  function NormalizeBreaks(s: string): string
  {
    Replace(ListItem, Replace(BlockOpen, Replace(BlockClose, Replace(LineBreak, s))))
  }

  /** Step 3: an anchor is replaced by the text it encloses. */
  function UnwrapAnchors(s: string): string
  {
    Replace(Anchor, s)
  }

  /** Step 4: every remaining tag. */
  function StripTags(s: string): string
  {
    Replace(AnyTag, s)
  }

  /** Step 5: the entities, in this order. */
  function DecodeEntities(s: string): string
  {
    Replace(HexRef, Replace(DecimalRef, Replace(GtEntity, Replace(LtEntity, Replace(AmpEntity, Replace(NbspEntity, s))))))
  }

  /** Step 6: URLs are deleted. */
  function DropUrls(s: string): string
  {
    Replace(WwwToken, Replace(HttpUrl, s))
  }

  /** Steps 1 to 6. */
  function Markup(s: string): string
  {
    DropUrls(DecodeEntities(StripTags(UnwrapAnchors(NormalizeBreaks(RemoveHeavyBlocks(s))))))
  }

  /** The first two replacements of step 7: control characters and no-break spaces become spaces. */
  function SpacesToBlank(s: string): string
  {
    Replace(NoBreakSpace, Replace(ControlSpace, s))
  }

  /** Step 7 as written: `\s+\n`, then `\n{3,}`, then runs of blanks, then `trim`. */
  function CollapseWhitespace(s: string): string
  {
    Trim(Replace(SpaceRun, Replace(NewlineRun, Replace(SpaceBeforeNewline, SpacesToBlank(s)))))
  }

  /** The white space characters that step 7 turns into spaces. */
  const ControlChars: set<char> := {'\t', '\U{0B}', '\U{0C}', '\r', '\U{A0}'}

  /** No two blanks (space or tab) stand side by side. */
  predicate NoBlankPair(t: string)
  {
    forall k :: 0 < k < |t| ==> !(InClass(t[k - 1], Blank) && InClass(t[k], Blank))
  }

  /** No white space character, line breaks included, stands in front of a line break. */
  predicate NoSpaceBeforeNewline(t: string)
  {
    forall k :: 0 < k < |t| && t[k] == '\n' ==> !IsSpace(t[k - 1])
  }

  /** No three line breaks in a row, that is, at most one blank line. */
  predicate NoTripleNewline(t: string)
  {
    forall k :: 2 <= k < |t| ==> !(t[k - 2] == '\n' && t[k - 1] == '\n' && t[k] == '\n')
  }

  /** Neither end is white space. */
  predicate Trimmed(t: string)
  {
    |t| == 0 || (!IsSpace(t[0]) && !IsSpace(t[|t| - 1]))
  }

  /** `sanitizeHTMLContent`: the empty string is returned as it is, anything else goes through every stage. */
  function Sanitize(raw: string): (r: string)
    ensures raw == "" ==> r == ""
    ensures Trimmed(r)
    ensures Avoids(r, ControlChars)
    ensures NoBlankPair(r)
    ensures NoSpaceBeforeNewline(r)
  {
    if raw == "" then raw
    else
      var m := Markup(raw);
      WhitespaceFacts(m);
      CollapseWhitespace(m)
  }

  // ---------------------------------------------------------------------
  // trim

  /** The end of `s[..j]` once trailing white space is dropped. */
  function TrimEndAt(s: string, j: nat): (e: nat)
    requires j <= |s|
    ensures e <= j
    ensures forall k :: e <= k < j ==> IsSpace(s[k])
    ensures e > 0 ==> !IsSpace(s[e - 1])
    decreases j
  {
    if j > 0 && IsSpace(s[j - 1]) then TrimEndAt(s, j - 1) else j
  }

  /** `String.prototype.trim`: white space is removed from both ends and nowhere else. */
  function Trim(s: string): (r: string)
    ensures Trimmed(r)
    ensures Trimmed(s) ==> r == s
    ensures r == [] <==> forall k :: 0 <= k < |s| ==> IsSpace(s[k])
    ensures exists a, b :: (0 <= a <= b <= |s| && r == s[a..b]
      && (forall k :: 0 <= k < a ==> IsSpace(s[k])) && (forall k :: b <= k < |s| ==> IsSpace(s[k])))
  {
    var a := RunEnd(s, 0, Space);
    var b := TrimEndAt(s, |s|);
    if a < b then
      assert (forall k :: 0 <= k < a ==> IsSpace(s[k])) && (forall k :: b <= k < |s| ==> IsSpace(s[k]));
      s[a..b]
    else
      assert b == 0 && s[0..0] == "";
      ""
  }

  /** The properties below hold of every piece of a text that has them. */
  lemma SliceKeeps(s: string, a: nat, b: nat)
    requires a <= b <= |s|
    ensures Avoids(s, ControlChars) ==> Avoids(s[a..b], ControlChars)
    ensures NoBlankPair(s) ==> NoBlankPair(s[a..b])
    ensures NoSpaceBeforeNewline(s) ==> NoSpaceBeforeNewline(s[a..b])
    ensures NoTripleNewline(s) ==> NoTripleNewline(s[a..b])
  {
    var t := s[a..b];
    assert forall k :: 0 <= k < |t| ==> t[k] == s[a + k];
  }

  lemma TrimKeeps(s: string)
    ensures Avoids(s, ControlChars) ==> Avoids(Trim(s), ControlChars)
    ensures NoBlankPair(s) ==> NoBlankPair(Trim(s))
    ensures NoSpaceBeforeNewline(s) ==> NoSpaceBeforeNewline(Trim(s))
    ensures NoTripleNewline(s) ==> NoTripleNewline(Trim(s))
  {
    var a := RunEnd(s, 0, Space);
    var b := TrimEndAt(s, |s|);
    if a < b {
      SliceKeeps(s, a, b);
    }
  }

  // ---------------------------------------------------------------------
  // Gluing one character in front of a text

  lemma PrependBlankPair(c: char, t: string)
    requires NoBlankPair(t)
    requires |t| > 0 && InClass(t[0], Blank) ==> !InClass(c, Blank)
    ensures NoBlankPair([c] + t)
  {
    var u := [c] + t;
    assert forall k :: 1 <= k < |u| ==> u[k] == t[k - 1];
  }

  lemma PrependLineEnd(c: char, t: string)
    requires NoSpaceBeforeNewline(t)
    requires |t| > 0 && t[0] == '\n' ==> !IsSpace(c)
    ensures NoSpaceBeforeNewline([c] + t)
  {
    var u := [c] + t;
    assert forall k :: 1 <= k < |u| ==> u[k] == t[k - 1];
  }

  lemma PrependNewlines(c: char, t: string)
    requires NoTripleNewline(t)
    requires c == '\n' && |t| >= 2 ==> !(t[0] == '\n' && t[1] == '\n')
    ensures NoTripleNewline([c] + t)
  {
    var u := [c] + t;
    assert forall k :: 1 <= k < |u| ==> u[k] == t[k - 1];
  }

  // ---------------------------------------------------------------------
  // Step 7, replacement by replacement

  /** `[\t\x0B\f\r]` → space leaves none of those four characters. */
  lemma ControlSpaceClears(s: string)
    ensures Avoids(Replace(ControlSpace, s), {'\t', '\U{0B}', '\U{0C}', '\r'})
  {
    var hits := Matches(ControlSpace, s);
    var bad := {'\t', '\U{0B}', '\U{0C}', '\r'};
    forall k | 0 <= k < |s| && s[k] in bad ensures hits[k].Some? {
      assert hits[k] == MatchAt(ControlSpace, s, k);
    }
    ReplaceClears(hits, s, 0, bad, " ");
  }

  /** `\u00A0` → space then leaves none of the five. */
  lemma NoBreakSpaceClears(s: string)
    requires Avoids(s, {'\t', '\U{0B}', '\U{0C}', '\r'})
    ensures Avoids(Replace(NoBreakSpace, s), ControlChars)
  {
    var hits := Matches(NoBreakSpace, s);
    forall k | 0 <= k < |s| && s[k] in ControlChars ensures hits[k].Some? {
      assert hits[k] == MatchAt(NoBreakSpace, s, k);
      assert s[k] !in {'\t', '\U{0B}', '\U{0C}', '\r'};
    }
    ReplaceClears(hits, s, 0, ControlChars, " ");
  }

  lemma SpacesToBlankClears(s: string)
    ensures Avoids(SpacesToBlank(s), ControlChars)
  {
    ControlSpaceClears(s);
    NoBreakSpaceClears(Replace(ControlSpace, s));
  }

  /**
    What the engine finds for `\s+\n` at `k`: the whole white space run up
    to its last line break, replaced by one line break; nothing where the run
    holds no line break after its first character.
   */
  predicate LineEndAt(s: string, k: nat, m: Option<Hit>)
    requires k < |s|
  {
    match m
    case Some(h) =>
      && h.text == "\n" && IsSpace(s[k])
      && LastIndexOf(s, '\n', k + 1, RunEnd(s, k, Space)) == Some(k + h.len - 1)
    case None =>
      IsSpace(s[k]) ==> LastIndexOf(s, '\n', k + 1, RunEnd(s, k, Space)).None?
  }

  predicate LineEndHits(hits: seq<Option<Hit>>, s: string)
  {
    Fits(hits, s) && forall k :: 0 <= k < |s| ==> LineEndAt(s, k, hits[k])
  }

  lemma LineEndMatchAt(s: string, k: nat)
    requires k < |s|
    ensures LineEndAt(s, k, MatchAt(SpaceBeforeNewline, s, k))
  {
  }

  lemma LineEndMatches(s: string)
    ensures LineEndHits(Matches(SpaceBeforeNewline, s), s)
  {
    var hits := Matches(SpaceBeforeNewline, s);
    forall k | 0 <= k < |s| ensures LineEndAt(s, k, hits[k]) {
      LineEndMatchAt(s, k);
      MatchesAt(SpaceBeforeNewline, s, k);
    }
  }

  /** A match of `\s+\n` at `i` puts one line break in front of the text after the run. */
  lemma LineEndHitStep(hits: seq<Option<Hit>>, s: string, i: nat, t: string)
    requires i < |s| && LineEndHits(hits, s) && hits[i].Some?
    requires NoSpaceBeforeNewline(t)
    requires var j := i + hits[i].value.len;
      |t| > 0 && t[0] == '\n' ==> j < |s| && LastIndexOf(s, '\n', j, RunEnd(s, j, Space)).Some?
    ensures NoSpaceBeforeNewline("\n" + t)
    ensures LastIndexOf(s, '\n', i, RunEnd(s, i, Space)).Some?
  {
    assert LineEndAt(s, i, hits[i]);
    var k := i + hits[i].value.len - 1;
    RunEndInside(s, i, k + 1, Space);
    PrependLineEnd('\n', t);
  }

  /** Where `\s+\n` does not match, the character is kept, and no white space ends up before a line break. */
  lemma LineEndMissStep(hits: seq<Option<Hit>>, s: string, i: nat, t: string)
    requires i < |s| && LineEndHits(hits, s) && hits[i].None?
    requires NoSpaceBeforeNewline(t)
    requires |t| > 0 && t[0] == '\n' ==> i + 1 < |s| && LastIndexOf(s, '\n', i + 1, RunEnd(s, i + 1, Space)).Some?
    ensures NoSpaceBeforeNewline([s[i]] + t)
    ensures s[i] == '\n' ==> LastIndexOf(s, '\n', i, RunEnd(s, i, Space)).Some?
  {
    assert LineEndAt(s, i, hits[i]);
    if IsSpace(s[i]) {
      RunEndInside(s, i, i + 1, Space);
    }
    PrependLineEnd(s[i], t);
  }

  /**
    `\s+\n` → `\n`, scanned from `i`: the output has no white space in front
    of a line break, and it starts with a line break only where the white
    space run at `i` holds one.
   */
  lemma {:induction false} LineEndsCollapsedFrom(hits: seq<Option<Hit>>, s: string, i: nat)
    requires i <= |s| && LineEndHits(hits, s)
    ensures NoSpaceBeforeNewline(ReplaceWith(hits, s, i))
    ensures var r := ReplaceWith(hits, s, i);
      |r| > 0 && r[0] == '\n' ==> i < |s| && LastIndexOf(s, '\n', i, RunEnd(s, i, Space)).Some?
    decreases |s| - i
  {
    if i < |s| {
      match hits[i]
      case Some(h) =>
        LineEndsCollapsedFrom(hits, s, i + h.len);
        LineEndHitStep(hits, s, i, ReplaceWith(hits, s, i + h.len));
        assert LineEndAt(s, i, hits[i]);
        assert ReplaceWith(hits, s, i) == "\n" + ReplaceWith(hits, s, i + h.len);
      case None =>
        LineEndsCollapsedFrom(hits, s, i + 1);
        LineEndMissStep(hits, s, i, ReplaceWith(hits, s, i + 1));
        assert ReplaceWith(hits, s, i) == [s[i]] + ReplaceWith(hits, s, i + 1);
    }
  }

  /** After `\s+\n` → `\n` no white space, line breaks included, stands in front of a line break. */
  lemma LineEndsCollapsed(s: string)
    ensures NoSpaceBeforeNewline(Replace(SpaceBeforeNewline, s))
  {
    LineEndMatches(s);
    LineEndsCollapsedFrom(Matches(SpaceBeforeNewline, s), s, 0);
  }

  /** Once no line break follows white space, `\n{3,}` finds nothing to replace. */
  lemma NewlineRunIdle(s: string)
    requires NoSpaceBeforeNewline(s)
    ensures Replace(NewlineRun, s) == s
  {
    var hits := Matches(NewlineRun, s);
    forall k | 0 <= k < |s| ensures hits[k].None? {
      assert hits[k] == MatchAt(NewlineRun, s, k);
      if k + 1 < |s| && s[k] == '\n' {
        assert s[k + 1] != '\n';
      }
    }
    NoMatchUnchanged(hits, s, 0);
  }

  /** What the engine finds for `[ \t]{2,}`: a whole run of at least two blanks. */
  predicate BlankRunHits(hits: seq<Option<Hit>>, s: string)
  {
    && Fits(hits, s)
    && (forall k :: 0 <= k < |s| && hits[k].Some? ==>
          && hits[k].value.text == " "
          && InClass(s[k], Blank)
          && InClass(s[k + hits[k].value.len - 1], Blank)
          && (k + hits[k].value.len < |s| ==> !InClass(s[k + hits[k].value.len], Blank)))
    && (forall k :: 0 <= k < |s| - 1 && hits[k].None? ==> !(InClass(s[k], Blank) && InClass(s[k + 1], Blank)))
  }

  lemma BlankRunMatchAt(s: string, k: nat)
    requires k < |s|
    ensures var m := MatchAt(SpaceRun, s, k);
      m.Some? ==> (m.value.text == " " && InClass(s[k], Blank) && InClass(s[k + m.value.len - 1], Blank)
        && (k + m.value.len < |s| ==> !InClass(s[k + m.value.len], Blank)))
    ensures MatchAt(SpaceRun, s, k).None? && k + 1 < |s| ==> !(InClass(s[k], Blank) && InClass(s[k + 1], Blank))
  {
  }

  lemma BlankRunMatches(s: string)
    ensures BlankRunHits(Matches(SpaceRun, s), s)
  {
    var hits := Matches(SpaceRun, s);
    forall k | 0 <= k < |s| && hits[k].Some?
      ensures hits[k].value.text == " " && InClass(s[k], Blank)
        && InClass(s[k + hits[k].value.len - 1], Blank)
        && (k + hits[k].value.len < |s| ==> !InClass(s[k + hits[k].value.len], Blank))
    {
      BlankRunMatchAt(s, k);
      assert hits[k] == MatchAt(SpaceRun, s, k);
    }
    forall k | 0 <= k < |s| - 1 && hits[k].None?
      ensures !(InClass(s[k], Blank) && InClass(s[k + 1], Blank))
    {
      BlankRunMatchAt(s, k);
      assert hits[k] == MatchAt(SpaceRun, s, k);
    }
  }

  /** `[ \t]{2,}` → space, scanned from `i`: no two blanks side by side remain. */
  lemma {:induction false} BlanksCollapsedFrom(hits: seq<Option<Hit>>, s: string, i: nat)
    requires i <= |s| && BlankRunHits(hits, s)
    ensures NoBlankPair(ReplaceWith(hits, s, i))
    ensures var r := ReplaceWith(hits, s, i);
      |r| > 0 && InClass(r[0], Blank) ==> i < |s| && InClass(s[i], Blank)
    decreases |s| - i
  {
    if i < |s| {
      match hits[i]
      case Some(h) =>
        BlanksCollapsedFrom(hits, s, i + h.len);
        PrependBlankPair(' ', ReplaceWith(hits, s, i + h.len));
      case None =>
        BlanksCollapsedFrom(hits, s, i + 1);
        PrependBlankPair(s[i], ReplaceWith(hits, s, i + 1));
    }
  }

  /** `[ \t]{2,}` → space puts no white space in front of a line break. */
  lemma {:induction false} BlanksKeepLineEndsFrom(hits: seq<Option<Hit>>, s: string, i: nat)
    requires i <= |s| && BlankRunHits(hits, s) && NoSpaceBeforeNewline(s)
    ensures NoSpaceBeforeNewline(ReplaceWith(hits, s, i))
    ensures var r := ReplaceWith(hits, s, i);
      |r| > 0 && r[0] == '\n' ==> i < |s| && s[i] == '\n'
    decreases |s| - i
  {
    if i < |s| {
      match hits[i]
      case Some(h) =>
        BlanksKeepLineEndsFrom(hits, s, i + h.len);
        assert IsSpace(s[i + h.len - 1]);
        assert i + h.len < |s| ==> s[i + h.len] != '\n';
        PrependLineEnd(' ', ReplaceWith(hits, s, i + h.len));
      case None =>
        BlanksKeepLineEndsFrom(hits, s, i + 1);
        PrependLineEnd(s[i], ReplaceWith(hits, s, i + 1));
    }
  }

  /** `[ \t]{2,}` → space creates no run of three line breaks. */
  lemma {:induction false} BlanksKeepNewlineCapFrom(hits: seq<Option<Hit>>, s: string, i: nat)
    requires i <= |s| && BlankRunHits(hits, s) && NoTripleNewline(s)
    ensures NoTripleNewline(ReplaceWith(hits, s, i))
    ensures var r := ReplaceWith(hits, s, i);
      |r| > 0 && r[0] == '\n' ==> i < |s| && s[i] == '\n'
    ensures var r := ReplaceWith(hits, s, i);
      |r| > 1 && r[0] == '\n' && r[1] == '\n' ==> i + 1 < |s| && s[i + 1] == '\n'
    decreases |s| - i
  {
    if i < |s| {
      match hits[i]
      case Some(h) =>
        BlanksKeepNewlineCapFrom(hits, s, i + h.len);
        PrependNewlines(' ', ReplaceWith(hits, s, i + h.len));
      case None =>
        BlanksKeepNewlineCapFrom(hits, s, i + 1);
        PrependNewlines(s[i], ReplaceWith(hits, s, i + 1));
    }
  }

  /** After `[ \t]{2,}` → space: no blank pair, and what held of line breaks still holds. */
  lemma BlanksCollapsed(s: string)
    ensures NoBlankPair(Replace(SpaceRun, s))
    ensures NoSpaceBeforeNewline(s) ==> NoSpaceBeforeNewline(Replace(SpaceRun, s))
    ensures NoTripleNewline(s) ==> NoTripleNewline(Replace(SpaceRun, s))
  {
    var hits := Matches(SpaceRun, s);
    BlankRunMatches(s);
    BlanksCollapsedFrom(hits, s, 0);
    if NoSpaceBeforeNewline(s) {
      BlanksKeepLineEndsFrom(hits, s, 0);
    }
    if NoTripleNewline(s) {
      BlanksKeepNewlineCapFrom(hits, s, 0);
    }
  }

  /** What the last replacement and `trim` keep. */
  lemma FinishKeeps(c: string)
    requires Avoids(c, ControlChars)
    ensures var t := Trim(Replace(SpaceRun, c));
      Trimmed(t) && Avoids(t, ControlChars) && NoBlankPair(t)
      && (NoSpaceBeforeNewline(c) ==> NoSpaceBeforeNewline(t))
      && (NoTripleNewline(c) ==> NoTripleNewline(t))
  {
    var e := Replace(SpaceRun, c);
    ReplaceAvoids(SpaceRun, c, ControlChars, " ");
    BlanksCollapsed(c);
    TrimKeeps(e);
  }

  /** The facts step 7 as written establishes. */
  lemma WhitespaceFacts(s: string)
    ensures var t := CollapseWhitespace(s);
      Trimmed(t) && Avoids(t, ControlChars) && NoBlankPair(t) && NoSpaceBeforeNewline(t)
  {
    var a := SpacesToBlank(s);
    SpacesToBlankClears(s);
    var c := Replace(SpaceBeforeNewline, a);
    ReplaceAvoids(SpaceBeforeNewline, a, ControlChars, "\n");
    LineEndsCollapsed(a);
    NewlineRunIdle(c);
    FinishKeeps(c);
  }

  // ---------------------------------------------------------------------
  // The blank-line finding

  /** A line break never follows another: every blank line of the input is lost. */
  lemma NoBlankLineSurvives(raw: string)
    ensures var r := Sanitize(raw);
      forall k :: 0 < k < |r| ==> !(r[k - 1] == '\n' && r[k] == '\n')
  {
  }

  /** The `\n{3,}` replacement of step 7 never changes anything. */
  lemma NewlineRunNeverFires(raw: string)
    ensures var c := Replace(SpaceBeforeNewline, SpacesToBlank(Markup(raw)));
      Replace(NewlineRun, c) == c
  {
    var a := SpacesToBlank(Markup(raw));
    LineEndsCollapsed(a);
    NewlineRunIdle(Replace(SpaceBeforeNewline, a));
  }

  /** Step 7 with the line-end rule narrowed to `[ \t]+\n`, so that line breaks are left to `\n{3,}`. */
  function CollapseWhitespaceIntended(s: string): string
  {
    Trim(Replace(SpaceRun, Replace(NewlineRun, Replace(BlankBeforeNewline, SpacesToBlank(s)))))
  }

  /** The clean-up with the corrected step 7: at most one blank line in a row survives. */
  function SanitizeIntended(raw: string): (r: string)
    ensures raw == "" ==> r == ""
    ensures Trimmed(r)
    ensures Avoids(r, ControlChars)
    ensures NoBlankPair(r)
    ensures NoTripleNewline(r)
  {
    if raw == "" then raw
    else
      var m := Markup(raw);
      IntendedWhitespaceFacts(m);
      CollapseWhitespaceIntended(m)
  }

  /** What the engine finds for `\n{3,}`: a whole run of at least three line breaks. */
  predicate NewlineRunHits(hits: seq<Option<Hit>>, s: string)
  {
    && Fits(hits, s)
    && (forall k :: 0 <= k < |s| && hits[k].Some? ==>
          && hits[k].value.text == "\n\n" && hits[k].value.len >= 3
          && s[k] == '\n' && s[k + 1] == '\n'
          && (k + hits[k].value.len < |s| ==> s[k + hits[k].value.len] != '\n'))
    && (forall k :: 0 <= k < |s| - 2 && hits[k].None? ==> !(s[k] == '\n' && s[k + 1] == '\n' && s[k + 2] == '\n'))
  }

  lemma NewlineRunMatchAt(s: string, k: nat)
    requires k < |s|
    ensures var m := MatchAt(NewlineRun, s, k);
      m.Some? ==> (m.value.text == "\n\n" && m.value.len >= 3 && s[k] == '\n' && s[k + 1] == '\n'
        && (k + m.value.len < |s| ==> s[k + m.value.len] != '\n'))
    ensures MatchAt(NewlineRun, s, k).None? && k + 2 < |s| ==> !(s[k] == '\n' && s[k + 1] == '\n' && s[k + 2] == '\n')
  {
    if k + 2 < |s| && s[k] == '\n' && s[k + 1] == '\n' && s[k + 2] == '\n' {
      assert RunEnd(s, k, Newline) >= k + 3 by {
        assert RunEnd(s, k + 2, Newline) >= k + 3;
      }
    }
  }

  lemma NewlineRunMatches(s: string)
    ensures NewlineRunHits(Matches(NewlineRun, s), s)
  {
    var hits := Matches(NewlineRun, s);
    forall k | 0 <= k < |s| && hits[k].Some?
      ensures && hits[k].value.text == "\n\n" && hits[k].value.len >= 3
        && s[k] == '\n' && s[k + 1] == '\n'
        && (k + hits[k].value.len < |s| ==> s[k + hits[k].value.len] != '\n')
    {
      NewlineRunMatchAt(s, k);
      assert hits[k] == MatchAt(NewlineRun, s, k);
    }
    forall k | 0 <= k < |s| - 2 && hits[k].None?
      ensures !(s[k] == '\n' && s[k + 1] == '\n' && s[k + 2] == '\n')
    {
      NewlineRunMatchAt(s, k);
      assert hits[k] == MatchAt(NewlineRun, s, k);
    }
  }

  /** `\n{3,}` → `\n\n`, scanned from `i`: no three line breaks in a row remain. */
  lemma {:induction false} NewlinesCappedFrom(hits: seq<Option<Hit>>, s: string, i: nat)
    requires i <= |s| && NewlineRunHits(hits, s)
    ensures NoTripleNewline(ReplaceWith(hits, s, i))
    ensures var r := ReplaceWith(hits, s, i);
      |r| > 0 && r[0] == '\n' ==> i < |s| && s[i] == '\n'
    ensures var r := ReplaceWith(hits, s, i);
      |r| > 1 && r[0] == '\n' && r[1] == '\n' ==> i + 1 < |s| && s[i + 1] == '\n'
    decreases |s| - i
  {
    if i < |s| {
      match hits[i]
      case Some(h) =>
        var rest := ReplaceWith(hits, s, i + h.len);
        NewlinesCappedFrom(hits, s, i + h.len);
        PrependNewlines('\n', rest);
        PrependNewlines('\n', ['\n'] + rest);
        assert h.text + rest == ['\n'] + (['\n'] + rest);
      case None =>
        NewlinesCappedFrom(hits, s, i + 1);
        PrependNewlines(s[i], ReplaceWith(hits, s, i + 1));
    }
  }

  lemma NewlinesCapped(s: string)
    ensures NoTripleNewline(Replace(NewlineRun, s))
  {
    NewlineRunMatches(s);
    NewlinesCappedFrom(Matches(NewlineRun, s), s, 0);
  }

  /** The facts the corrected step 7 establishes. */
  lemma IntendedWhitespaceFacts(s: string)
    ensures var t := CollapseWhitespaceIntended(s);
      Trimmed(t) && Avoids(t, ControlChars) && NoBlankPair(t) && NoTripleNewline(t)
  {
    var a := SpacesToBlank(s);
    SpacesToBlankClears(s);
    var c := Replace(BlankBeforeNewline, a);
    ReplaceAvoids(BlankBeforeNewline, a, ControlChars, "\n");
    var d := Replace(NewlineRun, c);
    ReplaceAvoids(NewlineRun, c, ControlChars, "\n\n");
    NewlinesCapped(c);
    FinishKeeps(d);
    assert CollapseWhitespaceIntended(s) == Trim(Replace(SpaceRun, d));
  }

  // ---------------------------------------------------------------------
  // Text without markup, and worked examples

  lemma NoHeavyMatchAt(s: string, k: nat)
    requires k < |s| && s[k] != '<'
    ensures MatchAt(ScriptBlock, s, k).None? && MatchAt(StyleBlock, s, k).None?
    ensures MatchAt(TableBlock, s, k).None? && MatchAt(ImgTag, s, k).None?
  {
  }

  lemma NoBreakMatchAt(s: string, k: nat)
    requires k < |s| && s[k] != '<'
    ensures MatchAt(LineBreak, s, k).None? && MatchAt(BlockClose, s, k).None?
    ensures MatchAt(BlockOpen, s, k).None? && MatchAt(ListItem, s, k).None?
  {
  }

  lemma NoTagMatchAt(s: string, k: nat)
    requires k < |s| && s[k] != '<'
    ensures MatchAt(Anchor, s, k).None? && MatchAt(AnyTag, s, k).None?
  {
  }

  lemma NoEntityMatchAt(s: string, k: nat)
    requires k < |s| && s[k] != '&'
    ensures MatchAt(NbspEntity, s, k).None? && MatchAt(AmpEntity, s, k).None?
    ensures MatchAt(LtEntity, s, k).None? && MatchAt(GtEntity, s, k).None?
    ensures MatchAt(DecimalRef, s, k).None? && MatchAt(HexRef, s, k).None?
  {
    assert !HasAt(s, k, "&nbsp;") && !HasAt(s, k, "&amp;");
    assert !HasAt(s, k, "&lt;") && !HasAt(s, k, "&gt;");
  }

  lemma NoUrlMatchAt(s: string, k: nat)
    requires k < |s|
    requires forall j :: 0 <= j < |s| ==> s[j] != ':' && s[j] != '.'
    ensures MatchAt(HttpUrl, s, k).None? && MatchAt(WwwToken, s, k).None?
  {
    if k + 7 <= |s| {
      assert s[k..k + 7][4] == s[k + 4] != ':';
    }
    if k + 8 <= |s| {
      assert s[k..k + 8][5] == s[k + 5] != ':';
    }
    if k + 4 <= |s| {
      assert s[k..k + 4][3] == s[k + 3] != '.';
    }
  }

  /** Text with no `<`, `&`, `:` or `.` goes through steps 1 to 6 unchanged. */
  lemma {:induction false} PlainTextPassesMarkup(s: string)
    requires forall k :: 0 <= k < |s| ==> s[k] != '<' && s[k] != '&' && s[k] != ':' && s[k] != '.'
    ensures Markup(s) == s
  {
    forall k | 0 <= k < |s|
      ensures MatchAt(ScriptBlock, s, k).None? && MatchAt(StyleBlock, s, k).None?
      ensures MatchAt(TableBlock, s, k).None? && MatchAt(ImgTag, s, k).None?
      ensures MatchAt(LineBreak, s, k).None? && MatchAt(BlockClose, s, k).None?
      ensures MatchAt(BlockOpen, s, k).None? && MatchAt(ListItem, s, k).None?
      ensures MatchAt(Anchor, s, k).None? && MatchAt(AnyTag, s, k).None?
      ensures MatchAt(NbspEntity, s, k).None? && MatchAt(AmpEntity, s, k).None?
      ensures MatchAt(LtEntity, s, k).None? && MatchAt(GtEntity, s, k).None?
      ensures MatchAt(DecimalRef, s, k).None? && MatchAt(HexRef, s, k).None?
      ensures MatchAt(HttpUrl, s, k).None? && MatchAt(WwwToken, s, k).None?
    {
      NoHeavyMatchAt(s, k);
      NoBreakMatchAt(s, k);
      NoTagMatchAt(s, k);
      NoEntityMatchAt(s, k);
      NoUrlMatchAt(s, k);
    }
    Idle(ScriptBlock, s);
    Idle(StyleBlock, s);
    Idle(TableBlock, s);
    Idle(ImgTag, s);
    Idle(LineBreak, s);
    Idle(BlockClose, s);
    Idle(BlockOpen, s);
    Idle(ListItem, s);
    Idle(Anchor, s);
    Idle(AnyTag, s);
    Idle(NbspEntity, s);
    Idle(AmpEntity, s);
    Idle(LtEntity, s);
    Idle(GtEntity, s);
    Idle(DecimalRef, s);
    Idle(HexRef, s);
    Idle(HttpUrl, s);
    Idle(WwwToken, s);
  }

  /** `<br>` and, ignoring case and with white space before the `>`, `<BR >` each become one line break. */
  lemma LineBreakForms(s: string, u: string)
    requires s == "<br>" && u == "<BR >"
    ensures MatchAt(LineBreak, s, 0) == Some(Hit(4, "\n"))
    ensures MatchAt(LineBreak, u, 0) == Some(Hit(5, "\n"))
  {
    assert StartsWithCI(s, 0, "<br") && StartsWithCI(u, 0, "<br");
    assert RunEnd(s, 3, Space) == 3;
    assert RunEnd(u, 4, Space) == 4;
    assert RunEnd(u, 3, Space) == 4;
  }

  /** `<br/>` is a line break; `<br />` is not one, and only the tag removal of step 4 deletes it. */
  lemma SpacedBreakOnlyStripped(s: string, t: string)
    requires s == "<br/>" && t == "<br />"
    ensures MatchAt(LineBreak, s, 0) == Some(Hit(5, "\n"))
    ensures MatchAt(LineBreak, t, 0).None?
    ensures MatchAt(AnyTag, t, 0) == Some(Hit(6, ""))
  {
    assert StartsWithCI(s, 0, "<br") && StartsWithCI(t, 0, "<br");
    assert RunEnd(s, 3, Space) == 3;
    assert RunEnd(s, 4, Space) == 4;
    assert RunEnd(t, 3, Space) == 4;
    assert RunEnd(t, 5, NotGt) == 5;
    assert RunEnd(t, 4, NotGt) == 5;
    assert RunEnd(t, 3, NotGt) == 5;
    assert RunEnd(t, 2, NotGt) == 5;
    assert RunEnd(t, 1, NotGt) == 5;
  }

  /** No `>` stands after position `k` of `s`. */
  predicate NoGtAfter(s: string, k: nat)
  {
    forall m :: k < m < |s| ==> s[m] != '>'
  }

  /**
    The matches of `<[^>]+>` over `s`: each deletes text that starts at a `<`,
    and a `<` without a match is followed at once by `>` or by no `>` at all.
   */
  predicate AnyTagHits(hits: seq<Option<Hit>>, s: string)
  {
    && Fits(hits, s)
    && (forall k :: 0 <= k < |s| && hits[k].Some? ==> s[k] == '<' && hits[k].value.text == "")
    && (forall k :: 0 <= k < |s| && hits[k].None? && s[k] == '<' ==>
          (k + 1 < |s| && s[k + 1] == '>') || NoGtAfter(s, k))
  }

  lemma AnyTagMatchAt(s: string, k: nat)
    requires k < |s|
    ensures var h := MatchAt(AnyTag, s, k);
      && (h.Some? ==> s[k] == '<' && h.value.text == "" && FirstGtAt(s, k + 1, k + h.value.len - 1))
      && (h.None? && s[k] == '<' ==> (k + 1 < |s| && s[k + 1] == '>') || NoGtAfter(s, k))
  {
    BracketTagExtent(s, k);
    if s[k] == '<' {
      var j := RunEnd(s, k + 1, NotGt);
      if j < |s| {
        assert !InClass(s[j], NotGt);
      }
    }
  }

  lemma AnyTagMatches(s: string)
    ensures AnyTagHits(Matches(AnyTag, s), s)
  {
    var hits := Matches(AnyTag, s);
    forall k | 0 <= k < |s|
      ensures hits[k].Some? ==> s[k] == '<' && hits[k].value.text == ""
      ensures hits[k].None? && s[k] == '<' ==> (k + 1 < |s| && s[k + 1] == '>') || NoGtAfter(s, k)
    {
      AnyTagMatchAt(s, k);
      MatchesAt(AnyTag, s, k);
    }
  }

  /** No tag with anything inside: a `<` that some later `>` follows is followed by `>` at once. */
  predicate NoFilledTag(t: string)
  {
    forall a, b :: 0 <= a < b < |t| && t[a] == '<' && t[b] == '>' ==> t[a + 1] == '>'
  }

  /** `<[^>]+>` → ``, scanned from `i`, leaves no tag with anything inside. */
  lemma {:induction false} NoFilledTagFrom(hits: seq<Option<Hit>>, s: string, i: nat)
    requires i <= |s| && AnyTagHits(hits, s)
    ensures NoFilledTag(ReplaceWith(hits, s, i))
    decreases |s| - i
  {
    if i < |s| {
      match hits[i]
      case Some(h) =>
        NoFilledTagFrom(hits, s, i + h.len);
        assert ReplaceWith(hits, s, i) == ReplaceWith(hits, s, i + h.len);
      case None =>
        var rest := ReplaceWith(hits, s, i + 1);
        NoFilledTagFrom(hits, s, i + 1);
        var t := [s[i]] + rest;
        assert ReplaceWith(hits, s, i) == t;
        var closedAtOnce := i + 1 < |s| && s[i + 1] == '>';
        if closedAtOnce {
          assert hits[i + 1].None?;
          assert rest == [s[i + 1]] + ReplaceWith(hits, s, i + 2);
        } else if s[i] == '<' {
          ReplaceClears(hits, s, i + 1, {'>'}, "");
        }
        forall a, b | 0 <= a < b < |t| && t[a] == '<' && t[b] == '>' ensures t[a + 1] == '>' {
          assert t[b] == rest[b - 1];
          if a > 0 {
            assert t[a] == rest[a - 1];
          }
        }
    }
  }

  /** Step 4 leaves no tag with anything inside: every `<` left is followed at once by `>` or by no `>` at all. */
  lemma StripTagsLeavesNoFilledTag(s: string)
    ensures NoFilledTag(StripTags(s))
  {
    AnyTagMatches(s);
    NoFilledTagFrom(Matches(AnyTag, s), s, 0);
  }

  /** Step 4 removes two tags and keeps the text between and after them: `<b>x</b>y` becomes `xy`. */
  lemma StripTagsKeepsText(d: string)
    requires d == "<b>x</b>y"
    ensures StripTags(d) == "xy"
  {
    assert d[0] == '<' && d[1] == 'b' && d[2] == '>' && d[3] == 'x';
    assert d[4] == '<' && d[5] == '/' && d[6] == 'b' && d[7] == '>' && d[8] == 'y';
    assert RunEnd(d, 1, NotGt) == 2;
    assert RunEnd(d, 5, NotGt) == 7;
    var hits := Matches(AnyTag, d);
    assert hits[0] == MatchAt(AnyTag, d, 0) == Some(Hit(3, ""));
    assert hits[3] == MatchAt(AnyTag, d, 3) == None;
    assert hits[4] == MatchAt(AnyTag, d, 4) == Some(Hit(4, ""));
    assert hits[8] == MatchAt(AnyTag, d, 8) == None;
    assert ReplaceWith(hits, d, 9) == "";
    assert ReplaceWith(hits, d, 8) == "y";
    assert ReplaceWith(hits, d, 4) == "y";
    assert ReplaceWith(hits, d, 3) == "xy";
    assert ReplaceWith(hits, d, 0) == "xy";
  }

  /** On text with no tag that has anything inside, step 4 changes nothing. */
  lemma StripTagsIdle(t: string)
    requires NoFilledTag(t)
    ensures StripTags(t) == t
  {
    forall k | 0 <= k < |t| ensures MatchAt(AnyTag, t, k).None? {
      if t[k] == '<' {
        var j := RunEnd(t, k + 1, NotGt);
        if j < |t| {
          assert !InClass(t[j], NotGt);
        }
      }
    }
    Idle(AnyTag, t);
  }

  /** Step 4 is idempotent. */
  lemma StripTagsIdempotent(s: string)
    ensures StripTags(StripTags(s)) == StripTags(s)
  {
    StripTagsLeavesNoFilledTag(s);
    StripTagsIdle(StripTags(s));
  }

  /** In `<a href=x>hi</a>!` the opening tag closes at 9 and the closing tag starts at 12. */
  lemma AnchorExampleSpan(s: string)
    requires s == "<a href=x>hi</a>!"
    ensures AnchorSpan(s, 0, 9, 12)
  {
    assert s[0] == '<' && s[1] == 'a' && s[9] == '>';
    assert s[2] == ' ' && s[3] == 'h' && s[4] == 'r' && s[5] == 'e' && s[6] == 'f' && s[7] == '=' && s[8] == 'x';
    assert s[12] == '<' && s[13] == '/' && s[14] == 'a' && s[15] == '>';
    assert StartsWithCI(s, 0, "<a") && StartsWithCI(s, 12, "</a>");
    assert s[10] == 'h' && s[11] == 'i';
    assert !StartsWithCI(s, 10, "</a>") && !StartsWithCI(s, 11, "</a>");
  }

  /** An anchor gives way to its inner text: its attributes and both tags go. */
  lemma AnchorExample(s: string)
    requires s == "<a href=x>hi</a>!"
    ensures MatchAt(Anchor, s, 0) == Some(Hit(16, "hi"))
  {
    AnchorExampleSpan(s);
    AnchorExtent(s, 0);
    assert s[10..12] == "hi";
  }

  /** `&#65;` names the code unit of `A`. */
  lemma DecimalRefExample(s: string)
    requires s == "&#65;"
    ensures MatchAt(DecimalRef, s, 0) == Some(Hit(5, "A"))
  {
    assert s[0] == '&' && s[1] == '#' && s[2] == '6' && s[3] == '5' && s[4] == ';';
    assert DecimalRefSpan(s, 0, 4);
    DecimalRefExtent(s, 0);
    assert s[2..4] == "65";
    assert DecimalValue("65") == 65;
  }

  /** `&#x41;` names the code unit of `A` too. */
  lemma HexRefExample(u: string)
    requires u == "&#x41;"
    ensures MatchAt(HexRef, u, 0) == Some(Hit(6, "A"))
  {
    assert u[0] == '&' && u[1] == '#' && u[2] == 'x' && u[3] == '4' && u[4] == '1' && u[5] == ';';
    assert HexRefSpan(u, 0, 5);
    HexRefExtent(u, 0);
    assert u[3..5] == "41";
    assert HexValue("41") == 65;
  }

  /** With no `&` in the text, the entity replacements of step 5 change nothing. */
  lemma DecodeIdle(s: string)
    requires forall k :: 0 <= k < |s| ==> s[k] != '&'
    ensures DecodeEntities(s) == s
  {
    forall k | 0 <= k < |s|
      ensures MatchAt(NbspEntity, s, k).None? && MatchAt(AmpEntity, s, k).None?
      ensures MatchAt(LtEntity, s, k).None? && MatchAt(GtEntity, s, k).None?
      ensures MatchAt(DecimalRef, s, k).None? && MatchAt(HexRef, s, k).None?
    {
      NoEntityMatchAt(s, k);
    }
    Idle(NbspEntity, s);
    Idle(AmpEntity, s);
    Idle(LtEntity, s);
    Idle(GtEntity, s);
    Idle(DecimalRef, s);
    Idle(HexRef, s);
  }

  /**
    Entities are decoded after the tags are gone: an escaped tag comes out
    of step 5 as literal markup that step 4 has already passed over.
   */
  lemma EscapedTagSurvives(s: string)
    requires s == "&lt;b&gt;"
    ensures StripTags(s) == s
    ensures DecodeEntities(s) == "<b>"
  {
    forall k | 0 <= k < |s| ensures MatchAt(AnyTag, s, k).None? {
      NoTagMatchAt(s, k);
    }
    Idle(AnyTag, s);
    EscapedTagAmpIdle(s);
    EscapedTagLt(s);
    EscapedTagGt("<b&gt;");
    NoNumericRefs("<b>");
  }

  lemma EscapedTagAmpIdle(s: string)
    requires s == "&lt;b&gt;"
    ensures Replace(AmpEntity, Replace(NbspEntity, s)) == s
  {
    forall k | 0 <= k < |s| ensures MatchAt(NbspEntity, s, k).None? && MatchAt(AmpEntity, s, k).None? {
      if s[k] != '&' {
        NoEntityMatchAt(s, k);
      } else if k == 0 {
        assert s[0..6][1] == 'l' && s[0..5][1] == 'l';
      }
    }
    Idle(NbspEntity, s);
    Idle(AmpEntity, s);
  }

  lemma EscapedTagLt(s: string)
    requires s == "&lt;b&gt;"
    ensures Replace(LtEntity, s) == "<b&gt;"
  {
    forall k | 0 <= k < |s| && k != 0 ensures MatchAt(LtEntity, s, k).None? {
      if s[k] != '&' {
        NoEntityMatchAt(s, k);
      } else {
        assert s[5..9][1] == 'g';
      }
    }
    assert s[0..4] == "&lt;";
    assert MatchAt(LtEntity, s, 0) == Some(Hit(4, "<"));
    OneHit(LtEntity, s, 0);
  }

  lemma EscapedTagGt(u: string)
    requires u == "<b&gt;"
    ensures Replace(GtEntity, u) == "<b>"
  {
    forall k | 0 <= k < |u| && k != 2 ensures MatchAt(GtEntity, u, k).None? {
      NoEntityMatchAt(u, k);
    }
    assert u[2..6] == "&gt;";
    assert MatchAt(GtEntity, u, 2) == Some(Hit(4, ">"));
    OneHit(GtEntity, u, 2);
  }

  /** Without `&`, the two numeric reference rules change nothing. */
  lemma NoNumericRefs(v: string)
    requires forall k :: 0 <= k < |v| ==> v[k] != '&'
    ensures Replace(HexRef, Replace(DecimalRef, v)) == v
  {
    forall k | 0 <= k < |v| ensures MatchAt(DecimalRef, v, k).None? && MatchAt(HexRef, v, k).None? {
      NoEntityMatchAt(v, k);
    }
    Idle(DecimalRef, v);
    Idle(HexRef, v);
  }

  /** A doubly escaped `<` is decoded twice, because `&amp;` is replaced before `&lt;`. */
  lemma DoubleEscapeDecodedTwice(s: string)
    requires s == "&amp;lt;"
    ensures DecodeEntities(s) == "<"
  {
    DoubleEscapeNbspIdle(s);
    DoubleEscapeAmp(s);
    DoubleEscapeLt("&lt;");
    NoEntityMatchAt("<", 0);
    Idle(GtEntity, "<");
    NoNumericRefs("<");
  }

  lemma DoubleEscapeNbspIdle(s: string)
    requires s == "&amp;lt;"
    ensures Replace(NbspEntity, s) == s
  {
    forall k | 0 <= k < |s| ensures MatchAt(NbspEntity, s, k).None? {
      if s[k] != '&' {
        NoEntityMatchAt(s, k);
      } else {
        assert s[0..6][1] == 'a';
      }
    }
    Idle(NbspEntity, s);
  }

  lemma DoubleEscapeAmp(s: string)
    requires s == "&amp;lt;"
    ensures Replace(AmpEntity, s) == "&lt;"
  {
    forall k | 0 <= k < |s| && k != 0 ensures MatchAt(AmpEntity, s, k).None? {
      NoEntityMatchAt(s, k);
    }
    assert s[0..5] == "&amp;";
    assert MatchAt(AmpEntity, s, 0) == Some(Hit(5, "&"));
    OneHit(AmpEntity, s, 0);
  }

  lemma DoubleEscapeLt(u: string)
    requires u == "&lt;"
    ensures Replace(LtEntity, u) == "<"
  {
    forall k | 0 <= k < |u| && k != 0 ensures MatchAt(LtEntity, u, k).None? {
      NoEntityMatchAt(u, k);
    }
    assert u[0..4] == "&lt;";
    assert MatchAt(LtEntity, u, 0) == Some(Hit(4, "<"));
    OneHit(LtEntity, u, 0);
  }

  /** Text with none of the five control characters passes the first two replacements of step 7 unchanged. */
  lemma SpacesToBlankIdle(s: string)
    requires Avoids(s, ControlChars)
    ensures SpacesToBlank(s) == s
  {
    forall k | 0 <= k < |s| ensures MatchAt(ControlSpace, s, k).None? && MatchAt(NoBreakSpace, s, k).None? {
      assert s[k] !in ControlChars;
    }
    Idle(ControlSpace, s);
    Idle(NoBreakSpace, s);
  }

  /** Without two blanks side by side, `[ \t]{2,}` finds nothing. */
  lemma BlankRunIdle(s: string)
    requires NoBlankPair(s)
    ensures Replace(SpaceRun, s) == s
  {
    forall k | 0 <= k < |s| ensures MatchAt(SpaceRun, s, k).None? {
      if k + 1 < |s| {
        assert !(InClass(s[k], Blank) && InClass(s[k + 1], Blank));
      }
    }
    Idle(SpaceRun, s);
  }

  /** Without three line breaks in a row, `\n{3,}` finds nothing. */
  lemma NewlineCapIdle(s: string)
    requires NoTripleNewline(s)
    ensures Replace(NewlineRun, s) == s
  {
    forall k | 0 <= k < |s| ensures MatchAt(NewlineRun, s, k).None? {
      if k + 2 < |s| {
        assert !(s[k] == '\n' && s[k + 1] == '\n' && s[k + 2] == '\n');
      }
    }
    Idle(NewlineRun, s);
  }

  /** No blank stands in front of a line break. */
  predicate NoBlankBeforeNewline(t: string)
  {
    forall k :: 0 < k < |t| && t[k] == '\n' ==> !InClass(t[k - 1], Blank)
  }

  /** Without a blank in front of a line break, `[ \t]+\n` finds nothing. */
  lemma BlankLineEndIdle(s: string)
    requires NoBlankBeforeNewline(s)
    ensures Replace(BlankBeforeNewline, s) == s
  {
    forall k | 0 <= k < |s| ensures MatchAt(BlankBeforeNewline, s, k).None? {
      var e := RunEnd(s, k, Blank);
      if e > k && e < |s| {
        assert InClass(s[e - 1], Blank);
      }
    }
    Idle(BlankBeforeNewline, s);
  }

  /** Without white space in front of a line break, `\s+\n` finds nothing. */
  lemma LineEndIdle(s: string)
    requires NoSpaceBeforeNewline(s)
    ensures Replace(SpaceBeforeNewline, s) == s
  {
    forall k | 0 <= k < |s| ensures MatchAt(SpaceBeforeNewline, s, k).None? {
      LineEndMatchAt(s, k);
      var e := RunEnd(s, k, Space);
      forall n | k + 1 <= n < e ensures s[n] != '\n' {
        assert IsSpace(s[n - 1]);
      }
    }
    Idle(SpaceBeforeNewline, s);
  }

  /** Text that already has the shape step 7 produces comes through step 7 unchanged. */
  lemma SettledWhitespace(t: string)
    requires Avoids(t, ControlChars) && Trimmed(t) && NoBlankPair(t) && NoSpaceBeforeNewline(t)
    ensures CollapseWhitespace(t) == t
  {
    SpacesToBlankIdle(t);
    LineEndIdle(t);
    NewlineRunIdle(t);
    BlankRunIdle(t);
  }

  /** The characters that can open markup, an entity or a URL. */
  const MarkupChars: set<char> := {'<', '&', ':', '.'}

  /**
    A text with no markup character that has the shape of a clean-up result
    is left as it is by the clean-up.
   */
  lemma SettledTextIdle(t: string)
    requires Avoids(t, MarkupChars) && Avoids(t, ControlChars)
    requires Trimmed(t) && NoBlankPair(t) && NoSpaceBeforeNewline(t)
    ensures Sanitize(t) == t
  {
    if t != "" {
      PlainTextPassesMarkup(t);
      SettledWhitespace(t);
    }
  }

  /** Sanitizing a second time changes nothing, provided the first pass left no `<`, `&`, `:` or `.`. */
  lemma SanitizeIdempotent(s: string)
    requires Avoids(Sanitize(s), MarkupChars)
    ensures Sanitize(Sanitize(s)) == Sanitize(s)
  {
    SettledTextIdle(Sanitize(s));
  }

  /** Removing white space from the ends brings in no new character. */
  lemma TrimAvoids(s: string, bad: set<char>)
    requires Avoids(s, bad)
    ensures Avoids(Trim(s), bad)
  {
    var a := RunEnd(s, 0, Space);
    var b := TrimEndAt(s, |s|);
    if a < b {
      assert forall k :: 0 <= k < b - a ==> s[a..b][k] == s[a + k];
    }
  }

  /** The first two replacements of step 7 write only spaces. */
  lemma SpacesToBlankAvoids(s: string, bad: set<char>)
    requires Avoids(s, bad) && ' ' !in bad
    ensures Avoids(SpacesToBlank(s), bad)
  {
    ReplaceAvoids(ControlSpace, s, bad, " ");
    ReplaceAvoids(NoBreakSpace, Replace(ControlSpace, s), bad, " ");
  }

  /** Step 7 writes only spaces and line breaks, so it brings in no other character. */
  lemma CollapseAvoids(s: string, bad: set<char>)
    requires Avoids(s, bad) && ' ' !in bad && '\n' !in bad
    ensures Avoids(CollapseWhitespace(s), bad)
  {
    SpacesToBlankAvoids(s, bad);
    var b := SpacesToBlank(s);
    LineBreakRulesAvoid(b, bad);
    var d := Replace(NewlineRun, Replace(SpaceBeforeNewline, b));
    ReplaceAvoids(SpaceRun, d, bad, " ");
    TrimAvoids(Replace(SpaceRun, d), bad);
  }

  /** `\s+\n` and `\n{3,}` write only line breaks. */
  lemma LineBreakRulesAvoid(b: string, bad: set<char>)
    requires Avoids(b, bad) && '\n' !in bad
    ensures Avoids(Replace(NewlineRun, Replace(SpaceBeforeNewline, b)), bad)
  {
    ReplaceAvoids(SpaceBeforeNewline, b, bad, "\n");
    ReplaceAvoids(NewlineRun, Replace(SpaceBeforeNewline, b), bad, "\n\n");
  }

  lemma MarkupCharsNotSpace()
    ensures ' ' !in MarkupChars && '\n' !in MarkupChars
  {
  }

  /** The clean-up of text without markup characters brings none in, so it is idempotent on such text. */
  lemma PlainTextSanitizedOnce(s: string)
    requires Avoids(s, MarkupChars)
    ensures Avoids(Sanitize(s), MarkupChars)
    ensures Sanitize(Sanitize(s)) == Sanitize(s)
  {
    if s != "" {
      PlainTextPassesMarkup(s);
      assert Sanitize(s) == CollapseWhitespace(s);
      MarkupCharsNotSpace();
      CollapseAvoids(s, MarkupChars);
    }
    SanitizeIdempotent(s);
  }

  /** Steps 1 to 3 match only at a `<`: text without one passes them unchanged. */
  lemma NoAngleIdle(s: string)
    requires forall k :: 0 <= k < |s| ==> s[k] != '<'
    ensures UnwrapAnchors(NormalizeBreaks(RemoveHeavyBlocks(s))) == s
  {
    forall k | 0 <= k < |s|
      ensures MatchAt(ScriptBlock, s, k).None? && MatchAt(StyleBlock, s, k).None?
      ensures MatchAt(TableBlock, s, k).None? && MatchAt(ImgTag, s, k).None?
      ensures MatchAt(LineBreak, s, k).None? && MatchAt(BlockClose, s, k).None?
      ensures MatchAt(BlockOpen, s, k).None? && MatchAt(ListItem, s, k).None?
      ensures MatchAt(Anchor, s, k).None?
    {
      NoHeavyMatchAt(s, k);
      NoBreakMatchAt(s, k);
      NoTagMatchAt(s, k);
    }
    Idle(ScriptBlock, s);
    Idle(StyleBlock, s);
    Idle(TableBlock, s);
    Idle(ImgTag, s);
    Idle(LineBreak, s);
    Idle(BlockClose, s);
    Idle(BlockOpen, s);
    Idle(ListItem, s);
    Idle(Anchor, s);
  }

  /** Step 6 finds no URL in `<b>`. */
  lemma LiteralTagNoUrl(u: string)
    requires u == "<b>"
    ensures DropUrls(u) == u
  {
    forall k | 0 <= k < |u| ensures MatchAt(HttpUrl, u, k).None? && MatchAt(WwwToken, u, k).None? {
      NoUrlMatchAt(u, k);
    }
    Idle(HttpUrl, u);
    Idle(WwwToken, u);
  }

  /** An escaped tag passes steps 1 to 6 as the literal tag. */
  lemma EscapedTagMarkup(s: string)
    requires s == "&lt;b&gt;"
    ensures Markup(s) == "<b>"
  {
    assert s[0] == '&' && s[1] == 'l' && s[2] == 't' && s[3] == ';' && s[4] == 'b';
    assert s[5] == '&' && s[6] == 'g' && s[7] == 't' && s[8] == ';';
    NoAngleIdle(s);
    EscapedTagSurvives(s);
    LiteralTagNoUrl("<b>");
  }

  /** At the `<` of `<b>`, none of the rules of steps 1 and 3 applies. */
  lemma LiteralTagHeavyMisses(u: string)
    requires u == "<b>"
    ensures MatchAt(ScriptBlock, u, 0).None? && MatchAt(StyleBlock, u, 0).None?
    ensures MatchAt(TableBlock, u, 0).None? && MatchAt(ImgTag, u, 0).None?
    ensures MatchAt(Anchor, u, 0).None?
  {
    assert Lower(u[1]) == 'b';
  }

  /** At the `<` of `<b>`, no line break, closing tag or list item of step 2 starts. */
  lemma LiteralTagCloseMisses(u: string)
    requires u == "<b>"
    ensures MatchAt(LineBreak, u, 0).None? && MatchAt(BlockClose, u, 0).None?
    ensures MatchAt(ListItem, u, 0).None?
  {
    assert Lower(u[1]) == 'b' && Lower(u[2]) == '>';
    assert !StartsWithCI(u, 0, "<br") && !StartsWithCI(u, 0, "<li") && !StartsWithCI(u, 0, "</h");
    assert !StartsWithCI(u, 0, "</p>") && !StartsWithCI(u, 0, "</div>") && !StartsWithCI(u, 0, "</li>");
    ImgAndListItemExtent(u, 0);
    LineBreakExtent(u, 0);
    BlockCloseExtent(u, 0);
  }

  /** At the `<` of `<b>`, no opening block tag of step 2 starts. */
  lemma LiteralTagOpenMisses(u: string)
    requires u == "<b>"
    ensures MatchAt(BlockOpen, u, 0).None?
  {
    assert Lower(u[1]) == 'b';
    assert !StartsWithCI(u, 0, "<p") && !StartsWithCI(u, 0, "<div") && !StartsWithCI(u, 0, "<h");
    BlockOpenExtent(u, 0);
  }

  /** `<b>` passes steps 1 to 3 unchanged. */
  lemma LiteralTagSteps(u: string)
    requires u == "<b>"
    ensures UnwrapAnchors(NormalizeBreaks(RemoveHeavyBlocks(u))) == u
  {
    forall k | 0 <= k < |u|
      ensures MatchAt(ScriptBlock, u, k).None? && MatchAt(StyleBlock, u, k).None?
      ensures MatchAt(TableBlock, u, k).None? && MatchAt(ImgTag, u, k).None?
      ensures MatchAt(LineBreak, u, k).None? && MatchAt(BlockClose, u, k).None?
      ensures MatchAt(BlockOpen, u, k).None? && MatchAt(ListItem, u, k).None?
      ensures MatchAt(Anchor, u, k).None?
    {
      if k == 0 {
        LiteralTagHeavyMisses(u);
        LiteralTagCloseMisses(u);
        LiteralTagOpenMisses(u);
      } else {
        NoHeavyMatchAt(u, k);
        NoBreakMatchAt(u, k);
        NoTagMatchAt(u, k);
      }
    }
    Idle(ScriptBlock, u);
    Idle(StyleBlock, u);
    Idle(TableBlock, u);
    Idle(ImgTag, u);
    Idle(LineBreak, u);
    Idle(BlockClose, u);
    Idle(BlockOpen, u);
    Idle(ListItem, u);
    Idle(Anchor, u);
  }

  /** Step 4 removes `<b>` whole. */
  lemma LiteralTagStripped(u: string)
    requires u == "<b>"
    ensures StripTags(u) == ""
  {
    forall k | 0 < k < |u| ensures MatchAt(AnyTag, u, k).None? {
      NoTagMatchAt(u, k);
    }
    assert RunEnd(u, 2, NotGt) == 2;
    assert RunEnd(u, 1, NotGt) == 2;
    assert MatchAt(AnyTag, u, 0) == Some(Hit(3, ""));
    OneHit(AnyTag, u, 0);
  }

  /** A literal tag is removed by steps 1 to 6. */
  lemma LiteralTagMarkup(u: string)
    requires u == "<b>"
    ensures Markup(u) == ""
  {
    LiteralTagSteps(u);
    LiteralTagStripped(u);
    DecodeIdle("");
    Idle(HttpUrl, "");
    Idle(WwwToken, "");
  }

  /** `<b>` already has the shape step 7 produces. */
  lemma LiteralTagSettled(u: string)
    requires u == "<b>"
    ensures CollapseWhitespace(u) == u
  {
    assert u[0] == '<' && u[1] == 'b' && u[2] == '>';
    forall k | 0 <= k < |u| ensures u[k] !in ControlChars && !InClass(u[k], Blank) && u[k] != '\n' {
      assert u[k] == '<' || u[k] == 'b' || u[k] == '>';
    }
    SettledWhitespace(u);
  }

  /**
    Sanitizing is not idempotent in general: an escaped tag comes out of the
    first pass as a literal tag, and a second pass removes it.
   */
  lemma SanitizeNotIdempotent(s: string)
    requires s == "&lt;b&gt;"
    ensures Sanitize(s) == "<b>"
    ensures Sanitize(Sanitize(s)) == ""
  {
    EscapedTagMarkup(s);
    var u := "<b>";
    LiteralTagSettled(u);
    assert Sanitize(s) == CollapseWhitespace(Markup(s));
    LiteralTagMarkup(u);
    SettledWhitespace("");
    assert Sanitize(u) == CollapseWhitespace("");
  }

  lemma LineEndExample(s: string)
    requires s == "a\n\nb"
    ensures Replace(SpaceBeforeNewline, s) == "a\nb"
  {
    var hits := Matches(SpaceBeforeNewline, s);
    assert hits[0] == MatchAt(SpaceBeforeNewline, s, 0) == None;
    assert hits[1] == MatchAt(SpaceBeforeNewline, s, 1) == Some(Hit(2, "\n"));
    assert hits[3] == MatchAt(SpaceBeforeNewline, s, 3) == None;
    assert ReplaceWith(hits, s, 3) == "b";
    assert ReplaceWith(hits, s, 1) == "\nb";
  }

  lemma CollapseExample(s: string)
    requires s == "a\n\nb"
    ensures CollapseWhitespace(s) == "a\nb"
  {
    var c := Replace(SpaceBeforeNewline, s);
    SpacesToBlankIdle(s);
    LineEndExample(s);
    NewlineRunIdle(c);
    BlankRunIdle(c);
    assert Trimmed(c);
  }

  lemma CollapseIntendedExample(s: string)
    requires s == "a\n\nb"
    ensures CollapseWhitespaceIntended(s) == s
  {
    SpacesToBlankIdle(s);
    BlankLineEndIdle(s);
    NewlineCapIdle(s);
    BlankRunIdle(s);
    assert Trimmed(s);
  }

  lemma SanitizeNonEmpty(s: string)
    requires s != ""
    ensures Sanitize(s) == CollapseWhitespace(Markup(s))
  {
  }

  /** One blank line between two paragraphs: the clean-up as written joins them with a single line break. */
  lemma ParagraphBreakLost(s: string)
    requires s == "a\n\nb"
    ensures Sanitize(s) == "a\nb"
  {
    assert s[0] == 'a' && s[1] == '\n' && s[2] == '\n' && s[3] == 'b';
    PlainTextPassesMarkup(s);
    CollapseExample(s);
    SanitizeNonEmpty(s);
  }

  /** The corrected clean-up keeps that blank line. */
  lemma ParagraphBreakKept(s: string)
    requires s == "a\n\nb"
    ensures SanitizeIntended(s) == s
  {
    assert s[0] == 'a' && s[1] == '\n' && s[2] == '\n' && s[3] == 'b';
    PlainTextPassesMarkup(s);
    CollapseIntendedExample(s);
    assert SanitizeIntended(s) == CollapseWhitespaceIntended(Markup(s));
  }
}
