/**
  Character classes and scanning helpers shared by the regular-expression
  rules: the JavaScript `\s` set, ASCII case folding, runs of a class, and
  searches for a fixed (possibly case-insensitive) pattern.
 */
module Text {
  import opened JsonValues

  /** The JavaScript `\s` class (WhiteSpace and LineTerminator), also what `trim` removes. */
  predicate IsSpace(c: char)
  {
    || c == '\t' || c == '\n' || c == '\U{0B}' || c == '\U{0C}' || c == '\r' || c == ' '
    || c == '\U{A0}' || c == '\U{1680}' || ('\U{2000}' <= c <= '\U{200A}')
    || c == '\U{2028}' || c == '\U{2029}' || c == '\U{202F}' || c == '\U{205F}'
    || c == '\U{3000}' || c == '\U{FEFF}'
  }

  /** The `\w` class, which decides where `\b` sits. */
  predicate IsWordChar(c: char)
  {
    ('a' <= c <= 'z') || ('A' <= c <= 'Z') || ('0' <= c <= '9') || c == '_'
  }

  predicate IsDigit(c: char)
  {
    '0' <= c <= '9'
  }

  predicate IsHexDigit(c: char)
  {
    IsDigit(c) || ('a' <= c <= 'f') || ('A' <= c <= 'F')
  }

  /** ASCII lower-casing. */
  function Lower(c: char): (r: char)
    ensures 'A' <= c <= 'Z' ==> r as int == c as int + 32
    ensures !('A' <= c <= 'Z') ==> r == c
  {
    if 'A' <= c <= 'Z' then (c as int + 32) as char else c
  }

  function LowerString(s: string): (r: string)
    ensures |r| == |s|
    ensures forall i :: 0 <= i < |s| ==> r[i] == Lower(s[i])
  {
    if s == [] then [] else [Lower(s[0])] + LowerString(s[1..])
  }

  /** The character classes the rules repeat with `*`, `+` or `{n,}`. */
  datatype Class = Space | NonSpace | Blank | Newline | Digit | HexDigit | NotGt

  predicate InClass(c: char, cls: Class)
  {
    match cls
    case Space => IsSpace(c)
    case NonSpace => !IsSpace(c)
    case Blank => c == ' ' || c == '\t'
    case Newline => c == '\n'
    case Digit => IsDigit(c)
    case HexDigit => IsHexDigit(c)
    case NotGt => c != '>'
  }

  /** The end of the longest run of `cls` characters starting at `i`. */
  function RunEnd(s: string, i: nat, cls: Class): (j: nat)
    requires i <= |s|
    ensures i <= j <= |s|
    ensures forall k :: i <= k < j ==> InClass(s[k], cls)
    ensures j < |s| ==> !InClass(s[j], cls)
    decreases |s| - i
  {
    if i < |s| && InClass(s[i], cls) then RunEnd(s, i + 1, cls) else i
  }

  /** Any position inside a run ends at the same place. */
  lemma {:induction false} RunEndInside(s: string, i: nat, j: nat, cls: Class)
    requires i <= |s| && i <= j <= RunEnd(s, i, cls)
    ensures RunEnd(s, j, cls) == RunEnd(s, i, cls)
    decreases j - i
  {
    if i < j {
      RunEndInside(s, i + 1, j, cls);
    }
  }

  /** The last position in `[lo, hi)` holding `c`. */
  function LastIndexOf(s: string, c: char, lo: nat, hi: nat): (r: Option<nat>)
    requires lo <= hi <= |s|
    ensures r.Some? ==> lo <= r.value < hi && s[r.value] == c
    ensures r.Some? ==> forall k :: r.value < k < hi ==> s[k] != c
    ensures r.None? ==> forall k :: lo <= k < hi ==> s[k] != c
    decreases hi - lo
  {
    if hi == lo then None
    else if s[hi - 1] == c then Some(hi - 1)
    else LastIndexOf(s, c, lo, hi - 1)
  }

  /** `s` holds `pat` at `i`, compared exactly. */
  predicate HasAt(s: string, i: nat, pat: string)
  {
    i + |pat| <= |s| && s[i..i + |pat|] == pat
  }

  /** `s` holds `pat` at `i`, letters compared without regard to ASCII case; `pat` is lower case. */
  predicate StartsWithCI(s: string, i: nat, pat: string)
    ensures StartsWithCI(s, i, pat)
        <==> i + |pat| <= |s| && forall k :: 0 <= k < |pat| ==> Lower(s[i + k]) == pat[k]
    decreases |pat|
  {
    if |pat| == 0 then i <= |s|
    else if i < |s| then
      assert forall k :: 1 <= k < |pat| && i + k < |s| ==> pat[k] == pat[1..][k - 1];
      Lower(s[i]) == pat[0] && StartsWithCI(s, i + 1, pat[1..])
    else false
  }

  /** The first position at or after `i` where `pat` starts, ignoring ASCII case. */
  function FindCI(s: string, i: nat, pat: string): (r: Option<nat>)
    requires i <= |s|
    ensures r.Some? ==> i <= r.value && StartsWithCI(s, r.value, pat)
    ensures r.Some? ==> forall k :: i <= k < r.value ==> !StartsWithCI(s, k, pat)
    ensures r.None? ==> forall k :: i <= k <= |s| ==> !StartsWithCI(s, k, pat)
    decreases |s| - i
  {
    if StartsWithCI(s, i, pat) then Some(i)
    else if i == |s| then None
    else FindCI(s, i + 1, pat)
  }

  /** `s` contains `t` as a contiguous piece (`String.prototype.includes`). */
  predicate Contains(s: string, t: string)
  {
    exists i: nat :: i <= |s| && HasAt(s, i, t)
  }

  /** The value of a run of decimal digits. */
  function DecimalValue(ds: string): nat
    requires forall k :: 0 <= k < |ds| ==> IsDigit(ds[k])
  {
    if ds == [] then 0
    else
      assert IsDigit(ds[|ds| - 1]);
      DecimalValue(ds[..|ds| - 1]) * 10 + (ds[|ds| - 1] as int - '0' as int)
  }

  function HexDigitValue(c: char): (v: nat)
    requires IsHexDigit(c)
    ensures v < 16
  {
    if IsDigit(c) then c as int - '0' as int
    else if 'a' <= c <= 'f' then c as int - 'a' as int + 10
    else c as int - 'A' as int + 10
  }

  /** The value of a run of hexadecimal digits. */
  function HexValue(hs: string): nat
    requires forall k :: 0 <= k < |hs| ==> IsHexDigit(hs[k])
  {
    if hs == [] then 0
    else HexValue(hs[..|hs| - 1]) * 16 + HexDigitValue(hs[|hs| - 1])
  }

  /** The decimal spelling of a natural number. */
  function NatToString(n: nat): (r: string)
    ensures |r| > 0
    ensures forall k :: 0 <= k < |r| ==> IsDigit(r[k])
  {
    if n < 10 then ["0123456789"[n]]
    else NatToString(n / 10) + ["0123456789"[n % 10]]
  }

  lemma {:induction false} NatToStringValue(n: nat)
    ensures DecimalValue(NatToString(n)) == n
  {
    if n >= 10 {
      var r := NatToString(n);
      assert r[..|r| - 1] == NatToString(n / 10);
      NatToStringValue(n / 10);
    }
  }

  /** `Number.prototype.toString()` on an integer. */
  function IntToString(n: int): (r: string)
    ensures |r| > 0
  {
    if n < 0 then "-" + NatToString(-n) else NatToString(n)
  }
}
