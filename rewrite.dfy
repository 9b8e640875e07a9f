/**
  The regular expressions of the HTML clean-up, one `Rule` each, and the
  global `String.prototype.replace` that applies one of them.

  `MatchAt(rule, s, i)` is the match the regular expression finds when the
  engine tries position `i` (greedy and lazy quantifiers and alternation
  resolved as a backtracking engine resolves them), together with the text
  that replaces it. `Replace` scans left to right and restarts after each
  match, as a `/g` replacement does.
 */
module Rewrite {
  import opened JsonValues
  import opened Text

  datatype Rule =
    // step 1: heavy blocks
    | ScriptBlock         // /<script[\s\S]*?<\/script>/gi  -> ''
    | StyleBlock          // /<style[\s\S]*?<\/style>/gi    -> ''
    | TableBlock          // /<table[\s\S]*?<\/table>/gi    -> ''
    | ImgTag              // /<img[^>]*>/gi                 -> ''
    // step 2: line breaks and list markers
    | LineBreak           // /<(?:br|br\/)\s*>/gi           -> '\n'
    | BlockClose          // /<\/(?:p|div|h[1-6]|li)>/gi    -> '\n'
    | BlockOpen           // /<(?:p|div|h[1-6])[^>]*>/gi    -> ''
    | ListItem            // /<li[^>]*>/gi                  -> '- '
    // step 3: anchors
    | Anchor              // /<a[^>]*>([\s\S]*?)<\/a>/gi    -> '$1'
    // step 4: every other tag
    | AnyTag              // /<[^>]+>/g                     -> ''
    // step 5: entities
    | NbspEntity          // /&nbsp;/g                      -> ' '
    | AmpEntity           // /&amp;/g                       -> '&'
    | LtEntity            // /&lt;/g                        -> '<'
    | GtEntity            // /&gt;/g                        -> '>'
    | DecimalRef          // /&#(\d+);/g                    -> the code unit
    | HexRef              // /&#x([0-9a-fA-F]+);/g          -> the code unit
    // step 6: URLs
    | HttpUrl             // /https?:\/\/\S+/g              -> ''
    | WwwToken            // /\bwww\.[^\s]+/g               -> ''
    // step 7: whitespace
    | ControlSpace        // /[\t\x0B\f\r]/g                -> ' '
    | NoBreakSpace        // /\u00A0/g                 -> ' '
    | SpaceBeforeNewline  // /\s+\n/g                       -> '\n'
    | NewlineRun          // /\n{3,}/g                      -> '\n\n'
    | SpaceRun            // /[ \t]{2,}/g                   -> ' '
    // the tag removal of the feature search
    | LooseTag            // /<[^>]*>/g                     -> ''
    // the line-end clean-up that keeps blank lines (see BlankBeforeNewline below)
    | BlankBeforeNewline  // /[ \t]+\n/g                    -> '\n'

  /** A match: how many characters it covers and what replaces them. */
  datatype Hit = Hit(len: nat, text: string)

  /** The replacement of the rules that always substitute the same text. */
  function FixedText(rule: Rule): Option<string>
  {
    match rule
    case ScriptBlock => Some("")
    case StyleBlock => Some("")
    case TableBlock => Some("")
    case ImgTag => Some("")
    case LineBreak => Some("\n")
    case BlockClose => Some("\n")
    case BlockOpen => Some("")
    case ListItem => Some("- ")
    case Anchor => None
    case AnyTag => Some("")
    case NbspEntity => Some(" ")
    case AmpEntity => Some("&")
    case LtEntity => Some("<")
    case GtEntity => Some(">")
    case DecimalRef => None
    case HexRef => None
    case HttpUrl => Some("")
    case WwwToken => Some("")
    case ControlSpace => Some(" ")
    case NoBreakSpace => Some(" ")
    case SpaceBeforeNewline => Some("\n")
    case NewlineRun => Some("\n\n")
    case SpaceRun => Some(" ")
    case LooseTag => Some("")
    case BlankBeforeNewline => Some("\n")
  }

  /** `open` at `i`, then everything up to and including the first `close` after it. */
  function BlockMatch(s: string, i: nat, open: string, close: string): (r: Option<nat>)
    requires i < |s|
    ensures r.Some? ==> 0 < r.value <= |s| - i
  {
    if StartsWithCI(s, i, open) && |open| > 0 then
      match FindCI(s, i + |open|, close)
      case Some(j) => Some(j + |close| - i)
      case None => None
    else None
  }

  /** `[^>]*>` from `from`: everything up to and including the next `>`. */
  function UpToGt(s: string, from: nat, i: nat): (r: Option<nat>)
    requires i < from <= |s|
    ensures r.Some? ==> 0 < r.value <= |s| - i
  {
    var j := RunEnd(s, from, NotGt);
    if j < |s| then Some(j + 1 - i) else None
  }

  /** `\S+` from `from`, the match having started at `i`. */
  function NonSpaceRun(s: string, from: nat, i: nat): (r: Option<nat>)
    requires i < from <= |s|
    ensures r.Some? ==> 0 < r.value <= |s| - i
  {
    var e := RunEnd(s, from, NonSpace);
    if e > from then Some(e - i) else None
  }

  /** The text a numeric character reference stands for: the UTF-16 code unit `code mod 65536`. */
  function CodeUnitText(code: nat, verbatim: string): string
  {
    var u := code % 65536;
    if 0xD800 <= u <= 0xDFFF then verbatim else [u as char]
  }

  function WithText(len: Option<nat>, text: string): Option<Hit>
  {
    match len
    case Some(n) => Some(Hit(n, text))
    case None => None
  }

  /** `name[^>]*>`, `name` compared without regard to case, replaced by `text`. */
  function OpenTagAt(s: string, i: nat, name: string, text: string): (r: Option<Hit>)
    requires i < |s|
    ensures r.Some? ==> 0 < r.value.len <= |s| - i && r.value.text == text
  {
    if |name| > 0 && StartsWithCI(s, i, name) then WithText(UpToGt(s, i + |name|, i), text) else None
  }

  /** The literal `tag`, compared without regard to case, replaced by a line break. */
  function CloseTagAt(s: string, i: nat, tag: string): (r: Option<Hit>)
    requires i < |s|
    ensures r.Some? ==> 0 < r.value.len <= |s| - i && r.value.text == "\n"
  {
    if |tag| > 0 && StartsWithCI(s, i, tag) then Some(Hit(|tag|, "\n")) else None
  }

  /** Step 1: `<script>`, `<style>` and `<table>` blocks and `<img>` tags. */
  function HeavyMatch(rule: Rule, s: string, i: nat): (r: Option<Hit>)
    requires i < |s|
    ensures r.Some? ==> 0 < r.value.len <= |s| - i && r.value.text == ""
  {
    match rule
    case ScriptBlock => WithText(BlockMatch(s, i, "<script", "</script>"), "")
    case StyleBlock => WithText(BlockMatch(s, i, "<style", "</style>"), "")
    case TableBlock => WithText(BlockMatch(s, i, "<table", "</table>"), "")
    case ImgTag => OpenTagAt(s, i, "<img", "")
    case _ => None
  }

  /** `<br` or `<br/`, then `\s*>`. */
  function LineBreakAt(s: string, i: nat): (r: Option<Hit>)
    requires i < |s|
    ensures r.Some? ==> 0 < r.value.len <= |s| - i && r.value.text == "\n"
  {
    if StartsWithCI(s, i, "<br") then
      var a := RunEnd(s, i + 3, Space);
      if a < |s| && s[a] == '>' then Some(Hit(a + 1 - i, "\n"))
      else if i + 3 < |s| && s[i + 3] == '/' then
        var b := RunEnd(s, i + 4, Space);
        if b < |s| && s[b] == '>' then Some(Hit(b + 1 - i, "\n")) else None
      else None
    else None
  }

  /** `</h1>` to `</h6>`. */
  function HeadingCloseAt(s: string, i: nat): (r: Option<Hit>)
    requires i < |s|
    ensures r.Some? ==> 0 < r.value.len <= |s| - i && r.value.text == "\n"
  {
    if StartsWithCI(s, i, "</h") && i + 4 < |s| && '1' <= s[i + 3] <= '6' && s[i + 4] == '>'
    then Some(Hit(5, "\n"))
    else None
  }

  /** `<h1` to `<h6`, then `[^>]*>`. */
  function HeadingOpenAt(s: string, i: nat): (r: Option<Hit>)
    requires i < |s|
    ensures r.Some? ==> 0 < r.value.len <= |s| - i && r.value.text == ""
  {
    if StartsWithCI(s, i, "<h") && i + 2 < |s| && '1' <= s[i + 2] <= '6'
    then WithText(UpToGt(s, i + 3, i), "")
    else None
  }

  /** Step 2: line breaks, block tags and list items. */
  function BreakMatch(rule: Rule, s: string, i: nat): (r: Option<Hit>)
    requires i < |s|
    ensures r.Some? ==> 0 < r.value.len <= |s| - i
    ensures r.Some? && FixedText(rule).Some? ==> r.value.text == FixedText(rule).value
  {
    match rule
    case LineBreak => LineBreakAt(s, i)
    case BlockClose =>
      var p := CloseTagAt(s, i, "</p>");
      if p.Some? then p
      else
        var d := CloseTagAt(s, i, "</div>");
        if d.Some? then d
        else
          var l := CloseTagAt(s, i, "</li>");
          if l.Some? then l else HeadingCloseAt(s, i)
    case BlockOpen =>
      var p := OpenTagAt(s, i, "<p", "");
      if p.Some? then p
      else
        var d := OpenTagAt(s, i, "<div", "");
        if d.Some? then d else HeadingOpenAt(s, i)
    case ListItem => OpenTagAt(s, i, "<li", "- ")
    case _ => None
  }

  /** `<a[^>]*>([\s\S]*?)<\/a>`, replaced by the enclosed text. */
  function AnchorAt(s: string, i: nat): (r: Option<Hit>)
    requires i < |s|
    ensures r.Some? ==> 0 < r.value.len <= |s| - i
  {
    if StartsWithCI(s, i, "<a") then
      var g := RunEnd(s, i + 2, NotGt);
      if g < |s| then
        match FindCI(s, g + 1, "</a>")
        case Some(j) => Some(Hit(j + 4 - i, s[g + 1..j]))
        case None => None
      else None
    else None
  }

  /** `<`, then `[^>]` characters (at least `least` of them), then `>`; removed. */
  function BracketTagAt(s: string, i: nat, least: nat): (r: Option<Hit>)
    requires i < |s|
    ensures r.Some? ==> 0 < r.value.len <= |s| - i && r.value.text == ""
  {
    if s[i] == '<' then
      var j := RunEnd(s, i + 1, NotGt);
      if j < |s| && j >= i + 1 + least then Some(Hit(j + 1 - i, "")) else None
    else None
  }

  /** Steps 3 and 4, and the search's tag removal: anchors and any other tag. */
  function TagMatch(rule: Rule, s: string, i: nat): (r: Option<Hit>)
    requires i < |s|
    ensures r.Some? ==> 0 < r.value.len <= |s| - i
    ensures r.Some? && FixedText(rule).Some? ==> r.value.text == FixedText(rule).value
  {
    match rule
    case Anchor => AnchorAt(s, i)
    case AnyTag => BracketTagAt(s, i, 1)
    case LooseTag => BracketTagAt(s, i, 0)
    case _ => None
  }

  /** A named entity `name`, replaced by `text`. */
  function NamedEntityAt(s: string, i: nat, name: string, text: string): (r: Option<Hit>)
    requires i < |s|
    ensures r.Some? ==> 0 < r.value.len <= |s| - i && r.value.text == text
  {
    if |name| > 0 && HasAt(s, i, name) then Some(Hit(|name|, text)) else None
  }

  /** `&#(\d+);`, replaced by the code unit the decimal number names. */
  function DecimalRefAt(s: string, i: nat): (r: Option<Hit>)
    requires i < |s|
    ensures r.Some? ==> 0 < r.value.len <= |s| - i
  {
    if i + 2 <= |s| && s[i] == '&' && s[i + 1] == '#' then
      var d := RunEnd(s, i + 2, Digit);
      if d > i + 2 && d < |s| && s[d] == ';'
      then Some(Hit(d + 1 - i, CodeUnitText(DecimalValue(s[i + 2..d]), s[i..d + 1])))
      else None
    else None
  }

  /** `&#x([0-9a-fA-F]+);`, replaced by the code unit the hexadecimal number names. */
  function HexRefAt(s: string, i: nat): (r: Option<Hit>)
    requires i < |s|
    ensures r.Some? ==> 0 < r.value.len <= |s| - i
  {
    if i + 3 <= |s| && s[i] == '&' && s[i + 1] == '#' && s[i + 2] == 'x' then
      var h := RunEnd(s, i + 3, HexDigit);
      if h > i + 3 && h < |s| && s[h] == ';'
      then Some(Hit(h + 1 - i, CodeUnitText(HexValue(s[i + 3..h]), s[i..h + 1])))
      else None
    else None
  }

  /** Step 5: the entity references. */
  function EntityMatch(rule: Rule, s: string, i: nat): (r: Option<Hit>)
    requires i < |s|
    ensures r.Some? ==> 0 < r.value.len <= |s| - i
    ensures r.Some? && FixedText(rule).Some? ==> r.value.text == FixedText(rule).value
  {
    match rule
    case NbspEntity => NamedEntityAt(s, i, "&nbsp;", " ")
    case AmpEntity => NamedEntityAt(s, i, "&amp;", "&")
    case LtEntity => NamedEntityAt(s, i, "&lt;", "<")
    case GtEntity => NamedEntityAt(s, i, "&gt;", ">")
    case DecimalRef => DecimalRefAt(s, i)
    case HexRef => HexRefAt(s, i)
    case _ => None
  }

  /** Step 6: absolute URLs and `www.` tokens. */
  function UrlMatch(rule: Rule, s: string, i: nat): (r: Option<Hit>)
    requires i < |s|
    ensures r.Some? ==> 0 < r.value.len <= |s| - i && r.value.text == ""
  {
    match rule
    case HttpUrl =>
      if HasAt(s, i, "https://") then WithText(NonSpaceRun(s, i + 8, i), "")
      else if HasAt(s, i, "http://") then WithText(NonSpaceRun(s, i + 7, i), "")
      else None
    case WwwToken =>
      if (i == 0 || !IsWordChar(s[i - 1])) && HasAt(s, i, "www.")
      then WithText(NonSpaceRun(s, i + 4, i), "")
      else None
    case _ => None
  }

  /** Step 7: the whitespace rules. */
  function SpaceMatch(rule: Rule, s: string, i: nat): (r: Option<Hit>)
    requires i < |s|
    ensures r.Some? ==> 0 < r.value.len <= |s| - i
    ensures r.Some? && FixedText(rule).Some? ==> r.value.text == FixedText(rule).value
  {
    match rule
    case ControlSpace =>
      if s[i] == '\t' || s[i] == '\U{0B}' || s[i] == '\U{0C}' || s[i] == '\r'
      then Some(Hit(1, " ")) else None
    case NoBreakSpace => if s[i] == '\U{A0}' then Some(Hit(1, " ")) else None
    case SpaceBeforeNewline =>
      if IsSpace(s[i]) then
        match LastIndexOf(s, '\n', i + 1, RunEnd(s, i, Space))
        case Some(k) => Some(Hit(k + 1 - i, "\n"))
        case None => None
      else None
    case NewlineRun =>
      var e := RunEnd(s, i, Newline);
      if e - i >= 3 then Some(Hit(e - i, "\n\n")) else None
    case SpaceRun =>
      var e := RunEnd(s, i, Blank);
      if e - i >= 2 then Some(Hit(e - i, " ")) else None
    case BlankBeforeNewline =>
      var e := RunEnd(s, i, Blank);
      if e > i && e < |s| && s[e] == '\n' then Some(Hit(e + 1 - i, "\n")) else None
    case _ => None
  }

  /**
    A `<script>`, `<style>` or `<table>` block runs from its opening tag to
    the first closing tag after it, letters compared without regard to case;
    without a closing tag nothing is removed.
   */
  lemma BlockExtent(s: string, i: nat, open: string, close: string)
    requires i < |s| && |open| > 0
    ensures var r := BlockMatch(s, i, open, close);
      r.Some? ==>
        && StartsWithCI(s, i, open)
        && i + |open| <= i + r.value - |close|
        && StartsWithCI(s, i + r.value - |close|, close)
        && forall k :: i + |open| <= k < i + r.value - |close| ==> !StartsWithCI(s, k, close)
    ensures BlockMatch(s, i, open, close).None? ==>
      !StartsWithCI(s, i, open) || forall k :: i + |open| <= k <= |s| ==> !StartsWithCI(s, k, close)
  {
  }

  /**
    `https?:\/\/\S+` matches at `i` exactly when `http://` or `https://` is
    followed by a non-space character, and then runs up to the next white space.
   */
  lemma HttpUrlExtent(s: string, i: nat)
    requires i < |s|
    ensures var r := MatchAt(HttpUrl, s, i);
      r.Some? ==> (r.value.text == ""
        && (forall k :: i <= k < i + r.value.len ==> !IsSpace(s[k]))
        && (i + r.value.len < |s| ==> IsSpace(s[i + r.value.len])))
    ensures MatchAt(HttpUrl, s, i).Some? <==>
      || (HasAt(s, i, "https://") && i + 8 < |s| && !IsSpace(s[i + 8]))
      || (HasAt(s, i, "http://") && i + 7 < |s| && !IsSpace(s[i + 7]))
  {
    if HasAt(s, i, "https://") {
      assert s[i + 4] == "https://"[4] == 's';
      assert !HasAt(s, i, "http://") by {
        if i + 7 <= |s| {
          assert s[i..i + 7][4] == 's' != "http://"[4];
        }
      }
      forall k | i <= k < i + 8 ensures !IsSpace(s[k]) {
        assert s[k] == "https://"[k - i];
      }
    } else if HasAt(s, i, "http://") {
      forall k | i <= k < i + 7 ensures !IsSpace(s[k]) {
        assert s[k] == "http://"[k - i];
      }
    }
  }

  /**
    `\bwww\.[^\s]+` matches at `i` exactly when a `www.` that starts a word is
    followed by a non-space character, and then runs up to the next white space.
   */
  lemma WwwTokenExtent(s: string, i: nat)
    requires i < |s|
    ensures var r := MatchAt(WwwToken, s, i);
      r.Some? ==> (r.value.text == ""
        && (forall k :: i <= k < i + r.value.len ==> !IsSpace(s[k]))
        && (i + r.value.len < |s| ==> IsSpace(s[i + r.value.len])))
    ensures MatchAt(WwwToken, s, i).Some? <==>
      (i == 0 || !IsWordChar(s[i - 1])) && HasAt(s, i, "www.") && i + 4 < |s| && !IsSpace(s[i + 4])
  {
    if HasAt(s, i, "www.") {
      forall k | i <= k < i + 4 ensures !IsSpace(s[k]) {
        assert s[k] == "www."[k - i];
      }
    }
  }

  /** A `>` occurs at or after `from`. */
  predicate HasGtFrom(s: string, from: nat)
  {
    exists e :: from <= e < |s| && s[e] == '>'
  }

  /** `e` is the first `>` at or after `from`. */
  predicate FirstGtAt(s: string, from: nat, e: nat)
  {
    from <= e < |s| && s[e] == '>' && forall k :: from <= k < e ==> s[k] != '>'
  }

  /** `[^>]*>` matches exactly when a `>` follows, and ends at the first one. */
  lemma UpToGtExtent(s: string, from: nat, i: nat)
    requires i < from <= |s|
    ensures UpToGt(s, from, i).Some? <==> HasGtFrom(s, from)
    ensures UpToGt(s, from, i).Some? ==> FirstGtAt(s, from, i + UpToGt(s, from, i).value - 1)
  {
    var j := RunEnd(s, from, NotGt);
    if HasGtFrom(s, from) {
      var e :| from <= e < |s| && s[e] == '>';
      assert !InClass(s[e], NotGt);
      assert j <= e;
    }
    if j < |s| {
      assert !InClass(s[j], NotGt);
    }
  }

  /** An opening tag `name[^>]*>` matches exactly when `name` starts there and a `>` follows; it ends at the first one. */
  lemma OpenTagExtent(s: string, i: nat, name: string, text: string)
    requires i < |s| && |name| > 0
    ensures OpenTagAt(s, i, name, text).Some? <==> StartsWithCI(s, i, name) && HasGtFrom(s, i + |name|)
    ensures var r := OpenTagAt(s, i, name, text);
      r.Some? ==> r.value.text == text && FirstGtAt(s, i + |name|, i + r.value.len - 1)
  {
    if StartsWithCI(s, i, name) {
      UpToGtExtent(s, i + |name|, i);
    }
  }

  /** `<img[^>]*>` (step 1) and `<li[^>]*>` (step 2): the tag up to the first `>`. */
  lemma ImgAndListItemExtent(s: string, i: nat)
    requires i < |s|
    ensures MatchAt(ImgTag, s, i).Some? <==> StartsWithCI(s, i, "<img") && HasGtFrom(s, i + 4)
    ensures var r := MatchAt(ImgTag, s, i);
      r.Some? ==> r.value.text == "" && FirstGtAt(s, i + 4, i + r.value.len - 1)
    ensures MatchAt(ListItem, s, i).Some? <==> StartsWithCI(s, i, "<li") && HasGtFrom(s, i + 3)
    ensures var r := MatchAt(ListItem, s, i);
      r.Some? ==> r.value.text == "- " && FirstGtAt(s, i + 3, i + r.value.len - 1)
  {
    OpenTagExtent(s, i, "<img", "");
    OpenTagExtent(s, i, "<li", "- ");
  }

  /** `<h1` to `<h6` at `i`, ignoring case. */
  predicate HeadingStart(s: string, i: nat)
  {
    StartsWithCI(s, i, "<h") && i + 2 < |s| && '1' <= s[i + 2] <= '6'
  }

  /** `<(?:p|div|h[1-6])[^>]*>`: one of the three openings, then everything up to the first `>`. */
  lemma BlockOpenExtent(s: string, i: nat)
    requires i < |s|
    ensures MatchAt(BlockOpen, s, i).Some? <==>
      || (StartsWithCI(s, i, "<p") && HasGtFrom(s, i + 2))
      || (StartsWithCI(s, i, "<div") && HasGtFrom(s, i + 4))
      || (HeadingStart(s, i) && HasGtFrom(s, i + 3))
    ensures var r := MatchAt(BlockOpen, s, i);
      r.Some? ==> (r.value.text == ""
        && ((StartsWithCI(s, i, "<p") && FirstGtAt(s, i + 2, i + r.value.len - 1))
          || (StartsWithCI(s, i, "<div") && FirstGtAt(s, i + 4, i + r.value.len - 1))
          || (HeadingStart(s, i) && FirstGtAt(s, i + 3, i + r.value.len - 1))))
  {
    OpenTagExtent(s, i, "<p", "");
    OpenTagExtent(s, i, "<div", "");
    if HeadingStart(s, i) {
      UpToGtExtent(s, i + 3, i);
    }
  }

  /** A closing tag that ends in its only `>` matches exactly where it is spelled, and ends at that `>`. */
  lemma CloseTagExtent(s: string, i: nat, tag: string)
    requires i < |s| && |tag| > 0 && tag[|tag| - 1] == '>'
    requires forall k :: 0 <= k < |tag| - 1 ==> tag[k] != '>'
    ensures CloseTagAt(s, i, tag).Some? <==> StartsWithCI(s, i, tag)
    ensures CloseTagAt(s, i, tag).Some? ==> (CloseTagAt(s, i, tag).value.len == |tag|
      && s[i + |tag| - 1] == '>' && forall k :: i < k < i + |tag| - 1 ==> s[k] != '>')
  {
    if StartsWithCI(s, i, tag) {
      forall k | i <= k < i + |tag| ensures (s[k] == '>') == (tag[k - i] == '>') {
        assert Lower(s[k]) == tag[k - i];
      }
    }
  }

  /** `<\/(?:p|div|h[1-6]|li)>`: exactly one of the closing tags, replaced by a line break. */
  lemma BlockCloseExtent(s: string, i: nat)
    requires i < |s|
    ensures MatchAt(BlockClose, s, i).Some? <==>
      || StartsWithCI(s, i, "</p>") || StartsWithCI(s, i, "</div>") || StartsWithCI(s, i, "</li>")
      || (StartsWithCI(s, i, "</h") && i + 4 < |s| && '1' <= s[i + 3] <= '6' && s[i + 4] == '>')
    ensures var r := MatchAt(BlockClose, s, i);
      r.Some? ==> (r.value.text == "\n" && s[i + r.value.len - 1] == '>'
        && forall k :: i < k < i + r.value.len - 1 ==> s[k] != '>')
  {
    CloseTagExtent(s, i, "</p>");
    CloseTagExtent(s, i, "</div>");
    CloseTagExtent(s, i, "</li>");
    if StartsWithCI(s, i, "</h") {
      assert Lower(s[i + 1]) == '/' && Lower(s[i + 2]) == 'h';
    }
  }

  /** White space from `from` up to a `>` at `e`. */
  predicate SpacesThenGt(s: string, from: nat, e: nat)
  {
    from <= e < |s| && s[e] == '>' && forall k :: from <= k < e ==> IsSpace(s[k])
  }

  /** `\s*>` matches at `from`. */
  predicate ClosesAfterSpaces(s: string, from: nat)
  {
    exists e :: from <= e < |s| && SpacesThenGt(s, from, e)
  }

  /** Such a `>` can only be where the white-space run from `from` ends. */
  lemma SpacesThenGtRun(s: string, from: nat, e: nat)
    requires from <= |s| && SpacesThenGt(s, from, e)
    ensures RunEnd(s, from, Space) == e
  {
    assert !IsSpace(s[e]);
  }

  /** `\s*>` matches exactly when the white-space run from `from` stops at a `>`. */
  lemma ClosesAfterSpacesRun(s: string, from: nat)
    requires from <= |s|
    ensures ClosesAfterSpaces(s, from) <==> RunEnd(s, from, Space) < |s| && s[RunEnd(s, from, Space)] == '>'
  {
    var a := RunEnd(s, from, Space);
    if ClosesAfterSpaces(s, from) {
      var e :| SpacesThenGt(s, from, e);
      SpacesThenGtRun(s, from, e);
    }
    if a < |s| && s[a] == '>' {
      assert SpacesThenGt(s, from, a);
    }
  }

  /** `<(?:br|br\/)\s*>`: `<br`, an optional `/`, white space, and `>`; the match ends at that `>`. */
  lemma LineBreakExtent(s: string, i: nat)
    requires i < |s|
    ensures MatchAt(LineBreak, s, i).Some? <==> (StartsWithCI(s, i, "<br")
      && (ClosesAfterSpaces(s, i + 3) || (i + 3 < |s| && s[i + 3] == '/' && ClosesAfterSpaces(s, i + 4))))
    ensures var r := MatchAt(LineBreak, s, i);
      r.Some? ==> (r.value.text == "\n"
        && (SpacesThenGt(s, i + 3, i + r.value.len - 1)
          || (s[i + 3] == '/' && SpacesThenGt(s, i + 4, i + r.value.len - 1))))
  {
    if StartsWithCI(s, i, "<br") {
      ClosesAfterSpacesRun(s, i + 3);
      var a := RunEnd(s, i + 3, Space);
      if a < |s| && s[a] == '>' {
        assert SpacesThenGt(s, i + 3, a);
      } else if i + 3 < |s| && s[i + 3] == '/' {
        ClosesAfterSpacesRun(s, i + 4);
        var b := RunEnd(s, i + 4, Space);
        if b < |s| && s[b] == '>' {
          assert SpacesThenGt(s, i + 4, b);
        }
      }
    }
  }

  /**
    `<[^>]+>` (step 4) and `<[^>]*>` (the description clean-up): a match starts at a `<`,
    ends at the first `>` after it and deletes what lies between. The `+` form fails
    only where that first `>` follows the `<` at once or no `>` follows at all.
   */
  lemma BracketTagExtent(s: string, i: nat)
    requires i < |s|
    ensures MatchAt(LooseTag, s, i).Some? <==> s[i] == '<' && HasGtFrom(s, i + 1)
    ensures MatchAt(AnyTag, s, i).Some? <==> (s[i] == '<' && HasGtFrom(s, i + 1) && i + 1 < |s| && s[i + 1] != '>')
    ensures var r := MatchAt(LooseTag, s, i);
      r.Some? ==> (r.value.text == "" && r.value.len >= 2 && FirstGtAt(s, i + 1, i + r.value.len - 1))
    ensures var r := MatchAt(AnyTag, s, i);
      r.Some? ==> (r.value.text == "" && r.value.len >= 3 && FirstGtAt(s, i + 1, i + r.value.len - 1))
  {
    if s[i] == '<' {
      UpToGtExtent(s, i + 1, i);
      var j := RunEnd(s, i + 1, NotGt);
      if j < |s| {
        assert !InClass(s[j], NotGt);
      }
      if i + 1 < |s| && s[i + 1] != '>' {
        assert InClass(s[i + 1], NotGt);
      }
    }
  }

  /**
    An anchor from `i`: `<a` at `i`, ignoring case, the first `>` after it at `g`,
    and the first `</a>` after that `>` at `j`.
   */
  predicate AnchorSpan(s: string, i: nat, g: nat, j: nat)
  {
    && StartsWithCI(s, i, "<a") && FirstGtAt(s, i + 2, g) && g < j
    && StartsWithCI(s, j, "</a>")
    && forall k :: g < k < j ==> !StartsWithCI(s, k, "</a>")
  }

  /**
    `<a[^>]*>([\s\S]*?)<\/a>` (step 3): the anchor matches exactly when it is opened, its
    opening tag is closed, and a `</a>` follows; the lazy group stops at the first `</a>`,
    the match ends after it and the replacement is the text between the tags.
   */
  lemma AnchorExtent(s: string, i: nat)
    requires i < |s|
    ensures MatchAt(Anchor, s, i).Some? <==> exists g: nat, j: nat :: AnchorSpan(s, i, g, j)
    ensures forall g: nat, j: nat :: AnchorSpan(s, i, g, j) ==> MatchAt(Anchor, s, i) == Some(Hit(j + 4 - i, s[g + 1..j]))
  {
    if StartsWithCI(s, i, "<a") {
      var g0 := RunEnd(s, i + 2, NotGt);
      forall g: nat, j: nat | AnchorSpan(s, i, g, j)
        ensures MatchAt(Anchor, s, i) == Some(Hit(j + 4 - i, s[g + 1..j]))
      {
        assert !InClass(s[g], NotGt);
        assert g0 == g;
        var f := FindCI(s, g + 1, "</a>");
        assert f.Some?;
        assert f.value == j;
      }
      if g0 < |s| {
        var f := FindCI(s, g0 + 1, "</a>");
        if f.Some? {
          assert AnchorSpan(s, i, g0, f.value);
        }
      }
    }
  }

  /** `&#`, decimal digits from `i + 2` up to a `;` at `d`. */
  predicate DecimalRefSpan(s: string, i: nat, d: nat)
  {
    && i + 2 < d < |s| && s[i] == '&' && s[i + 1] == '#' && s[d] == ';'
    && forall k :: i + 2 <= k < d ==> IsDigit(s[k])
  }

  /**
    `&#(\d+);` (step 5) matches exactly where `&#`, one or more decimal digits and `;`
    stand; the match ends at the `;` and yields the code unit the digits name.
   */
  lemma DecimalRefExtent(s: string, i: nat)
    requires i < |s|
    ensures MatchAt(DecimalRef, s, i).Some? <==> exists d: nat :: DecimalRefSpan(s, i, d)
    ensures forall d: nat :: DecimalRefSpan(s, i, d) ==>
      MatchAt(DecimalRef, s, i) == Some(Hit(d + 1 - i, CodeUnitText(DecimalValue(s[i + 2..d]), s[i..d + 1])))
  {
    if i + 2 <= |s| && s[i] == '&' && s[i + 1] == '#' {
      var d0 := RunEnd(s, i + 2, Digit);
      forall d: nat | DecimalRefSpan(s, i, d)
        ensures MatchAt(DecimalRef, s, i) == Some(Hit(d + 1 - i, CodeUnitText(DecimalValue(s[i + 2..d]), s[i..d + 1])))
      {
        assert !InClass(s[d], Digit);
        assert d0 == d;
      }
      if d0 > i + 2 && d0 < |s| && s[d0] == ';' {
        assert DecimalRefSpan(s, i, d0);
      }
    }
  }

  /** `&#x`, hexadecimal digits from `i + 3` up to a `;` at `h`. */
  predicate HexRefSpan(s: string, i: nat, h: nat)
  {
    && i + 3 < h < |s| && s[i] == '&' && s[i + 1] == '#' && s[i + 2] == 'x' && s[h] == ';'
    && forall k :: i + 3 <= k < h ==> IsHexDigit(s[k])
  }

  /**
    `&#x([0-9a-fA-F]+);` (step 5) matches exactly where `&#x` (a lower-case `x`), one or
    more hexadecimal digits and `;` stand; the match ends at the `;` and yields the code
    unit the digits name.
   */
  lemma HexRefExtent(s: string, i: nat)
    requires i < |s|
    ensures MatchAt(HexRef, s, i).Some? <==> exists h: nat :: HexRefSpan(s, i, h)
    ensures forall h: nat :: HexRefSpan(s, i, h) ==>
      MatchAt(HexRef, s, i) == Some(Hit(h + 1 - i, CodeUnitText(HexValue(s[i + 3..h]), s[i..h + 1])))
  {
    if i + 3 <= |s| && s[i] == '&' && s[i + 1] == '#' && s[i + 2] == 'x' {
      var h0 := RunEnd(s, i + 3, HexDigit);
      forall h: nat | HexRefSpan(s, i, h)
        ensures MatchAt(HexRef, s, i) == Some(Hit(h + 1 - i, CodeUnitText(HexValue(s[i + 3..h]), s[i..h + 1])))
      {
        assert !InClass(s[h], HexDigit);
        assert h0 == h;
      }
      if h0 > i + 3 && h0 < |s| && s[h0] == ';' {
        assert HexRefSpan(s, i, h0);
      }
    }
  }

  /** The match of `rule` when the engine tries position `i` of `s`. */
  function MatchAt(rule: Rule, s: string, i: nat): (r: Option<Hit>)
    requires i < |s|
    ensures r.Some? ==> 0 < r.value.len <= |s| - i
    ensures r.Some? && FixedText(rule).Some? ==> r.value.text == FixedText(rule).value
  {
    match rule
    case ScriptBlock | StyleBlock | TableBlock | ImgTag => HeavyMatch(rule, s, i)
    case LineBreak | BlockClose | BlockOpen | ListItem => BreakMatch(rule, s, i)
    case Anchor | AnyTag | LooseTag => TagMatch(rule, s, i)
    case NbspEntity | AmpEntity | LtEntity | GtEntity | DecimalRef | HexRef => EntityMatch(rule, s, i)
    case HttpUrl | WwwToken => UrlMatch(rule, s, i)
    case ControlSpace | NoBreakSpace | SpaceBeforeNewline | NewlineRun | SpaceRun | BlankBeforeNewline =>
      SpaceMatch(rule, s, i)
  }

  /** The engine's match at every position of `s`: a regular expression is always run on the original text. */
  predicate Fits(hits: seq<Option<Hit>>, s: string)
  {
    |hits| == |s| && forall k :: 0 <= k < |s| && hits[k].Some? ==> 0 < hits[k].value.len <= |s| - k
  }

  function Matches(rule: Rule, s: string): (hits: seq<Option<Hit>>)
    ensures Fits(hits, s)
    ensures forall k :: 0 <= k < |s| && hits[k].Some? && FixedText(rule).Some? ==>
      hits[k].value.text == FixedText(rule).value
  {
    seq(|s|, k requires 0 <= k < |s| => MatchAt(rule, s, k))
  }

  lemma MatchesAt(rule: Rule, s: string, k: nat)
    requires k < |s|
    ensures Matches(rule, s)[k] == MatchAt(rule, s, k)
  {
  }

  /**
    The global replacement from position `i` on: a match is replaced and the
    scan resumes after it, anywhere else the character is copied.
   */
  function ReplaceWith(hits: seq<Option<Hit>>, s: string, i: nat): string
    requires i <= |s| && Fits(hits, s)
    decreases |s| - i
  {
    if i == |s| then ""
    else match hits[i]
      case Some(h) => h.text + ReplaceWith(hits, s, i + h.len)
      case None => [s[i]] + ReplaceWith(hits, s, i + 1)
  }

  /** `s.replace(rule, ...)` with the `g` flag. */
  function Replace(rule: Rule, s: string): string
  {
    ReplaceWith(Matches(rule, s), s, 0)
  }

  /** Where nothing matches, the text is copied unchanged. */
  lemma {:induction false} NoMatchUnchanged(hits: seq<Option<Hit>>, s: string, i: nat)
    requires i <= |s| && Fits(hits, s)
    requires forall k :: i <= k < |s| ==> hits[k].None?
    ensures ReplaceWith(hits, s, i) == s[i..]
    decreases |s| - i
  {
    if i < |s| {
      NoMatchUnchanged(hits, s, i + 1);
      assert s[i..] == [s[i]] + s[i + 1..];
    }
  }

  /** Positions without a hit are copied one by one. */
  lemma {:induction false} CopyUpTo(hits: seq<Option<Hit>>, s: string, j: nat, i: nat)
    requires j <= i <= |s| && Fits(hits, s)
    requires forall k :: j <= k < i ==> hits[k].None?
    ensures ReplaceWith(hits, s, j) == s[j..i] + ReplaceWith(hits, s, i)
    decreases i - j
  {
    if j < i {
      assert hits[j].None?;
      assert ReplaceWith(hits, s, j) == [s[j]] + ReplaceWith(hits, s, j + 1);
      CopyUpTo(hits, s, j + 1, i);
      assert s[j..i] == [s[j]] + s[j + 1..i];
    }
  }

  /** A single hit is replaced and everything around it is copied. */
  lemma OneHitWith(hits: seq<Option<Hit>>, s: string, i: nat)
    requires Fits(hits, s) && i < |s| && hits[i].Some?
    requires forall k :: 0 <= k < |s| && k != i ==> hits[k].None?
    ensures ReplaceWith(hits, s, 0) == s[..i] + hits[i].value.text + s[i + hits[i].value.len..]
  {
    var h := hits[i].value;
    CopyUpTo(hits, s, 0, i);
    NoMatchUnchanged(hits, s, i + h.len);
    assert ReplaceWith(hits, s, i) == h.text + s[i + h.len..];
    assert s[0..i] == s[..i];
  }

  /** A rule that matches at one position only replaces that match and copies the rest. */
  lemma OneHit(rule: Rule, s: string, i: nat)
    requires i < |s| && MatchAt(rule, s, i).Some?
    requires forall k :: 0 <= k < |s| && k != i ==> MatchAt(rule, s, k).None?
    ensures Replace(rule, s)
         == s[..i] + MatchAt(rule, s, i).value.text + s[i + MatchAt(rule, s, i).value.len..]
  {
    var hits := Matches(rule, s);
    forall k | 0 <= k < |s| && k != i ensures hits[k].None? {
      MatchesAt(rule, s, k);
    }
    MatchesAt(rule, s, i);
    OneHitWith(hits, s, i);
  }

  /** A rule that matches nowhere leaves the text as it is. */
  lemma Idle(rule: Rule, s: string)
    requires forall k :: 0 <= k < |s| ==> MatchAt(rule, s, k).None?
    ensures Replace(rule, s) == s
  {
    var hits := Matches(rule, s);
    forall k | 0 <= k < |s| ensures hits[k].None? {
      assert hits[k] == MatchAt(rule, s, k);
    }
    NoMatchUnchanged(hits, s, 0);
  }

  /** No character of `t` is in `bad`. */
  predicate Avoids(t: string, bad: set<char>)
  {
    forall k :: 0 <= k < |t| ==> t[k] !in bad
  }

  lemma AvoidsConcat(a: string, b: string, bad: set<char>)
    requires Avoids(a, bad) && Avoids(b, bad)
    ensures Avoids(a + b, bad)
  {
    forall k | 0 <= k < |a + b| ensures (a + b)[k] !in bad {
      if k >= |a| {
        assert (a + b)[k] == b[k - |a|];
      }
    }
  }

  /**
    A replacement free of `bad` that is made wherever a `bad` character
    stands leaves no `bad` character behind.
   */
  lemma {:induction false} ReplaceClears(hits: seq<Option<Hit>>, s: string, i: nat, bad: set<char>, fixed: string)
    requires i <= |s| && Fits(hits, s)
    requires forall k :: 0 <= k < |s| && hits[k].Some? ==> hits[k].value.text == fixed
    requires Avoids(fixed, bad)
    requires forall k :: i <= k < |s| && s[k] in bad ==> hits[k].Some?
    ensures Avoids(ReplaceWith(hits, s, i), bad)
    decreases |s| - i
  {
    if i < |s| {
      match hits[i]
      case Some(h) =>
        ReplaceClears(hits, s, i + h.len, bad, fixed);
        AvoidsConcat(h.text, ReplaceWith(hits, s, i + h.len), bad);
      case None =>
        ReplaceClears(hits, s, i + 1, bad, fixed);
        AvoidsConcat([s[i]], ReplaceWith(hits, s, i + 1), bad);
    }
  }

  /** A character absent from the text and from a fixed replacement is absent from the result. */
  lemma ReplaceAvoids(rule: Rule, s: string, bad: set<char>, fixed: string)
    requires FixedText(rule) == Some(fixed) && Avoids(fixed, bad) && Avoids(s, bad)
    ensures Avoids(Replace(rule, s), bad)
  {
    ReplaceClears(Matches(rule, s), s, 0, bad, fixed);
  }
}
