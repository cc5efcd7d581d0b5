/**
 * The Python `str` operations the core relies on, over `seq<char>`:
 * `in` and `find`, `split(sep)`, `sep.join`, `strip()`, `upper()` and
 * `title()` (ASCII letters only), and `hex(n)[2:]` with `zfill`.
 */
module Strings {
  import opened Wrappers

  // ---------------------------------------------------------------------
  // Substring search
  // ---------------------------------------------------------------------

  /** `sub` occurs in `s` starting at index `i`. */
  predicate OccursAt(s: string, sub: string, i: nat) {
    i + |sub| <= |s| && s[i..i + |sub|] == sub
  }

  /** Python's `s.find(sub)`: the first index at which `sub` occurs, if any. */
  function IndexOf(s: string, sub: string): (r: Option<nat>)
    ensures r.Some? ==> OccursAt(s, sub, r.value)
    ensures r.Some? ==> forall j: nat :: j < r.value ==> !OccursAt(s, sub, j)
    ensures r.None? ==> forall j: nat :: !OccursAt(s, sub, j)
  {
    IndexFrom(s, sub, 0)
  }

  /** The first index from `start` on at which `sub` occurs, if any. */
  function IndexFrom(s: string, sub: string, start: nat): (r: Option<nat>)
    ensures r.Some? ==> start <= r.value && OccursAt(s, sub, r.value)
    ensures r.Some? ==> forall j: nat :: start <= j < r.value ==> !OccursAt(s, sub, j)
    ensures r.None? ==> forall j: nat :: start <= j ==> !OccursAt(s, sub, j)
    decreases |s| - start
  {
    if start + |sub| > |s| then None
    else if OccursAt(s, sub, start) then Some(start)
    else IndexFrom(s, sub, start + 1)
  }

  /** Python's `sub in s`. */
  predicate Contains(s: string, sub: string) {
    IndexOf(s, sub).Some?
  }

  /** An occurrence anywhere makes `sub in s` true. */
  lemma OccurrenceContains(s: string, sub: string, i: nat)
    requires OccursAt(s, sub, i)
    ensures Contains(s, sub)
  {
  }

  /** Extending a string on the right does not move its first occurrence of `sub`. */
  lemma IndexOfExtend(a: string, c: string, sub: string)
    requires Contains(a, sub)
    ensures IndexOf(a + c, sub) == IndexOf(a, sub)
  {
    var i := IndexOf(a, sub).value;
    assert (a + c)[i..i + |sub|] == a[i..i + |sub|];
    forall j: nat | j < i
      ensures !OccursAt(a + c, sub, j)
    {
      assert !OccursAt(a, sub, j);
      assert (a + c)[j..j + |sub|] == a[j..j + |sub|];
    }
    FirstOccurrence(a + c, sub, i);
  }

  /** An occurrence with none before it is the first one. */
  lemma FirstOccurrence(s: string, sub: string, i: nat)
    requires OccursAt(s, sub, i)
    requires forall j: nat :: j < i ==> !OccursAt(s, sub, j)
    ensures IndexOf(s, sub) == Some(i)
  {
    var r := IndexOf(s, sub);
    assert r.Some?;
    assert r.value <= i;
    assert r.value >= i;
  }

  /** Whatever occurs in `b` occurs in any string with `b` as an infix. */
  lemma {:induction false} ContainsInfix(a: string, b: string, c: string, sub: string)
    requires Contains(b, sub)
    ensures Contains(a + b + c, sub)
  {
    var i := IndexOf(b, sub).value;
    assert (a + b + c)[|a| + i..|a| + i + |sub|] == b[i..i + |sub|];
    OccurrenceContains(a + b + c, sub, |a| + i);
  }

  // ---------------------------------------------------------------------
  // split and join
  // ---------------------------------------------------------------------

  /** Python's `sep.join(parts)`. */
  function Join(parts: seq<string>, sep: string): string
    decreases |parts|
  {
    if |parts| == 0 then ""
    else if |parts| == 1 then parts[0]
    else parts[0] + sep + Join(parts[1..], sep)
  }

  /** Python's `s.split(sep)` for a non-empty separator. */
  function Split(s: string, sep: string): (parts: seq<string>)
    requires |sep| > 0
    ensures |parts| >= 1
    ensures Contains(s, sep) <==> |parts| >= 2
    decreases |s|
  {
    match IndexOf(s, sep)
    case None => [s]
    case Some(i) => [s[..i]] + Split(s[i + |sep|..], sep)
  }

  /**
   * `split` and `join` are inverse: joining the parts with the separator
   * gives back the string, and no part holds the separator.
   */
  lemma {:induction false} SplitJoin(s: string, sep: string)
    requires |sep| > 0
    ensures Join(Split(s, sep), sep) == s
    ensures forall k :: 0 <= k < |Split(s, sep)| ==> !Contains(Split(s, sep)[k], sep)
    decreases |s|
  {
    match IndexOf(s, sep)
    case None =>
    case Some(i) =>
      var rest := s[i + |sep|..];
      SplitJoin(rest, sep);
      forall j: nat
        ensures !OccursAt(s[..i], sep, j)
      {
        if j + |sep| <= i {
          assert !OccursAt(s, sep, j);
          assert s[..i][j..j + |sep|] == s[j..j + |sep|];
        }
      }
      assert Split(s, sep) == [s[..i]] + Split(rest, sep);
      assert s == s[..i] + sep + rest;
  }

  /** Extending a string that holds the separator leaves its first part first. */
  lemma SplitExtend(a: string, c: string, sep: string)
    requires |sep| > 0 && Contains(a, sep)
    ensures var i := IndexOf(a, sep).value;
            Split(a + c, sep) == [a[..i]] + Split(a[i + |sep|..] + c, sep)
  {
    var i := IndexOf(a, sep).value;
    var s := a + c;
    IndexOfExtend(a, c, sep);
    assert Split(s, sep) == [s[..i]] + Split(s[i + |sep|..], sep);
    assert s[..i] == a[..i];
    assert s[i + |sep|..] == a[i + |sep|..] + c;
  }

  /** Splitting at a first separator that follows `a` gives `a` and the split of the rest. */
  lemma SplitAtFirst(a: string, sep: string, b: string)
    requires |sep| > 0
    requires forall j: nat :: j < |a| ==> !OccursAt(a + sep + b, sep, j)
    ensures Split(a + sep + b, sep) == [a] + Split(b, sep)
  {
    var s := a + sep + b;
    assert s[|a|..|a| + |sep|] == sep;
    assert OccursAt(s, sep, |a|);
    assert IndexOf(s, sep) == Some(|a|);
    assert s[..|a|] == a && s[|a| + |sep|..] == b;
  }

  /** A string without the separator splits into itself alone. */
  lemma SplitWithoutSeparator(s: string, sep: string)
    requires |sep| > 0 && forall j: nat :: !OccursAt(s, sep, j)
    ensures Split(s, sep) == [s]
  {
  }

  /** Each piece of a split is an infix of the string, so what it contains the string contains. */
  lemma SplitPartContains(s: string, sep: string, k: nat, sub: string)
    requires |sep| > 0
    requires k < |Split(s, sep)| && Contains(Split(s, sep)[k], sub)
    ensures Contains(s, sub)
  {
    SplitJoin(s, sep);
    JoinPartContains(Split(s, sep), sep, k, sub);
  }

  /** What a part contains, the joined string contains. */
  lemma {:induction false} JoinPartContains(parts: seq<string>, sep: string, k: nat, sub: string)
    requires k < |parts| && Contains(parts[k], sub)
    ensures Contains(Join(parts, sep), sub)
    decreases |parts|
  {
    if |parts| > 1 {
      var rest := Join(parts[1..], sep);
      assert Join(parts, sep) == parts[0] + sep + rest;
      if k == 0 {
        assert parts[0] + sep + rest == "" + parts[0] + (sep + rest);
        ContainsInfix("", parts[0], sep + rest, sub);
      } else {
        assert parts[1..][k - 1] == parts[k];
        JoinPartContains(parts[1..], sep, k - 1, sub);
        assert parts[0] + sep + rest + "" == parts[0] + sep + rest;
        ContainsInfix(parts[0] + sep, rest, "", sub);
      }
    }
  }

  /** Every part occurs in the joined text. */
  lemma JoinHoldsParts(parts: seq<string>, sep: string)
    ensures forall k :: 0 <= k < |parts| ==> Contains(Join(parts, sep), parts[k])
  {
    forall k | 0 <= k < |parts|
      ensures Contains(Join(parts, sep), parts[k])
    {
      assert parts[k][0..|parts[k]|] == parts[k];
      OccurrenceContains(parts[k], parts[k], 0);
      JoinPartContains(parts, sep, k, parts[k]);
    }
  }

  /** Joining a further part onto a non-empty list puts one separator before it. */
  lemma {:induction false} JoinAppend(parts: seq<string>, p: string, sep: string)
    requires |parts| > 0
    ensures Join(parts + [p], sep) == Join(parts, sep) + sep + p
    decreases |parts|
  {
    if |parts| == 1 {
      assert (parts + [p])[1..] == [p];
    } else {
      assert (parts + [p])[1..] == parts[1..] + [p];
      JoinAppend(parts[1..], p, sep);
    }
  }

  // ---------------------------------------------------------------------
  // strip
  // ---------------------------------------------------------------------

  /** The characters Python's `str.strip()` removes (`str.isspace`). */
  predicate IsSpace(c: char) {
    var n := c as int;
    (9 <= n <= 13) || (28 <= n <= 32) || n == 0x85 || n == 0xA0 || n == 0x1680
    || (0x2000 <= n <= 0x200A) || n == 0x2028 || n == 0x2029 || n == 0x202F
    || n == 0x205F || n == 0x3000
  }

  /** Where the whitespace run starting at `i` ends: the first non-space at or after `i`, or the end. */
  function SkipSpaces(s: string, i: nat): (j: nat)
    requires i <= |s|
    ensures i <= j <= |s|
    ensures forall k :: i <= k < j ==> IsSpace(s[k])
    ensures j == |s| || !IsSpace(s[j])
    decreases |s| - i
  {
    if i < |s| && IsSpace(s[i]) then SkipSpaces(s, i + 1) else i
  }

  /** Where the whitespace run ending at `j` starts, going no lower than `lo`. */
  function SkipSpacesBack(s: string, lo: nat, j: nat): (e: nat)
    requires lo <= j <= |s|
    ensures lo <= e <= j
    ensures forall k :: e <= k < j ==> IsSpace(s[k])
    ensures e == lo || !IsSpace(s[e - 1])
    decreases j
  {
    if lo < j && IsSpace(s[j - 1]) then SkipSpacesBack(s, lo, j - 1) else j
  }

  /** Python's `s.strip()`: `lstrip()` and then `rstrip()`. */
  function Strip(s: string): string {
    var i := SkipSpaces(s, 0);
    s[i..SkipSpacesBack(s, i, |s|)]
  }

  /**
   * Stripping cuts only whitespace, from both ends, and leaves none at
   * either end of what it keeps.
   */
  lemma StripTrims(s: string)
    ensures exists i, j :: 0 <= i <= j <= |s| && Strip(s) == s[i..j]
              && (forall k :: 0 <= k < i ==> IsSpace(s[k]))
              && (forall k :: j <= k < |s| ==> IsSpace(s[k]))
    ensures Strip(s) == [] || (!IsSpace(Strip(s)[0]) && !IsSpace(Strip(s)[|Strip(s)| - 1]))
  {
    var i := SkipSpaces(s, 0);
    var j := SkipSpacesBack(s, i, |s|);
    assert Strip(s) == s[i..j];
    if i < j {
      assert Strip(s)[0] == s[i];
      assert j - 1 != i ==> !IsSpace(s[j - 1]);
    }
  }

  /** Stripping removes one leading space from a word that has no outer whitespace. */
  lemma StripLeadingSpace(w: string)
    requires |w| > 0 && !IsSpace(w[0]) && !IsSpace(w[|w| - 1])
    ensures Strip(" " + w) == w
  {
    var s := " " + w;
    assert IsSpace(s[0]) && s[1] == w[0];
    assert SkipSpaces(s, 1) == 1;
    assert SkipSpaces(s, 0) == 1;
    assert s[|s| - 1] == w[|w| - 1];
    assert SkipSpacesBack(s, 1, |s|) == |s|;
    assert s[1..] == w;
  }

  // ---------------------------------------------------------------------
  // ASCII case mapping
  // ---------------------------------------------------------------------

  predicate IsLower(c: char) { 'a' <= c <= 'z' }

  predicate IsUpper(c: char) { 'A' <= c <= 'Z' }

  function UpperChar(c: char): char {
    if IsLower(c) then (c as int - 32) as char else c
  }

  function LowerChar(c: char): char {
    if IsUpper(c) then (c as int + 32) as char else c
  }

  /** Python's `s.upper()` on ASCII letters. */
  function Upper(s: string): string {
    seq(|s|, i requires 0 <= i < |s| => UpperChar(s[i]))
  }

  lemma UpperConcat(a: string, b: string)
    ensures Upper(a + b) == Upper(a) + Upper(b)
  {
  }

  /** Python's `s.title()` on ASCII letters: a letter is upper-cased when it follows no letter. */
  function Title(s: string): string {
    TitleAfter(s, false)
  }

  function TitleAfter(s: string, afterLetter: bool): string
    decreases |s|
  {
    if s == [] then []
    else
      var c := if afterLetter then LowerChar(s[0]) else UpperChar(s[0]);
      [c] + TitleAfter(s[1..], IsLower(s[0]) || IsUpper(s[0]))
  }

  /** A lower-case word keeps its letters after a letter. */
  lemma {:induction false} TitleAfterLetter(s: string)
    requires forall k :: 0 <= k < |s| ==> IsLower(s[k])
    ensures TitleAfter(s, true) == s
    decreases |s|
  {
    if s != [] {
      TitleAfterLetter(s[1..]);
    }
  }

  /** `title()` of a lower-case word capitalises its first letter only. */
  lemma TitleOfLowerWord(c: char, rest: string)
    requires IsLower(c) && forall k :: 0 <= k < |rest| ==> IsLower(rest[k])
    ensures Title([c] + rest) == [UpperChar(c)] + rest
  {
    assert ([c] + rest)[1..] == rest;
    TitleAfterLetter(rest);
  }

  // ---------------------------------------------------------------------
  // hex(n)[2:] and zfill
  // ---------------------------------------------------------------------

  const HEX_DIGITS: string := "0123456789abcdef"

  predicate IsHexDigit(c: char) {
    ('0' <= c <= '9') || ('a' <= c <= 'f')
  }

  function HexDigitValue(c: char): nat
    requires IsHexDigit(c)
  {
    if '0' <= c <= '9' then c as int - '0' as int else c as int - 'a' as int + 10
  }

  /** Python's `hex(n)[2:]` for `n >= 0`: lower-case digits without leading zeros. */
  function LowerHex(n: nat): (r: string)
    ensures |r| >= 1 && forall k :: 0 <= k < |r| ==> IsHexDigit(r[k])
    decreases n
  {
    if n < 16 then [HEX_DIGITS[n]] else LowerHex(n / 16) + [HEX_DIGITS[n % 16]]
  }

  /** Python's `hex(n)[2:]` for any integer: `hex(-5)` is `"-0x5"`, so the slice is `"x5"`. */
  function HexSlice(n: int): string {
    if n >= 0 then LowerHex(n) else "x" + LowerHex(-n)
  }

  /** The value of a string of hexadecimal digits. */
  function HexValue(s: string): nat
    requires forall k :: 0 <= k < |s| ==> IsHexDigit(s[k])
    decreases |s|
  {
    if s == [] then 0 else HexValue(s[..|s| - 1]) * 16 + HexDigitValue(s[|s| - 1])
  }

  /** Reading the digits back gives the number, and two digits cover 16 to 255. */
  lemma {:induction false} LowerHexRoundTrip(n: nat)
    ensures HexValue(LowerHex(n)) == n
    ensures 16 <= n < 256 ==> |LowerHex(n)| == 2
    ensures n < 16 ==> |LowerHex(n)| == 1
    decreases n
  {
    var s := LowerHex(n);
    if n < 16 {
      HexDigitRoundTrip(n);
      assert s[..0] == [];
    } else {
      LowerHexRoundTrip(n / 16);
      HexDigitRoundTrip(n % 16);
      assert s[..|s| - 1] == LowerHex(n / 16);
      assert s[|s| - 1] == HEX_DIGITS[n % 16];
      assert HexValue(s) == (n / 16) * 16 + n % 16;
    }
  }

  /** Each digit reads back as its own position in `HEX_DIGITS`. */
  lemma HexDigitRoundTrip(d: nat)
    requires d < 16
    ensures IsHexDigit(HEX_DIGITS[d]) && HexDigitValue(HEX_DIGITS[d]) == d
  {
  }

  function Zeros(n: nat): string {
    seq(n, _ => '0')
  }

  /** Python's `s.zfill(width)`: pad with `0` on the left (after a leading sign) up to `width`. */
  function ZFill(s: string, width: nat): (r: string)
    ensures |r| == if |s| >= width then |s| else width
  {
    if |s| >= width then s
    else if |s| > 0 && (s[0] == '+' || s[0] == '-') then [s[0]] + Zeros(width - |s|) + s[1..]
    else Zeros(width - |s|) + s
  }

  /**
   * What `zfill` adds is zeros only: a string already as wide is kept, and
   * a shorter one keeps its characters at the right end, with the zeros
   * put after a leading sign.
   */
  lemma ZFillPads(s: string, width: nat)
    ensures var r := ZFill(s, width);
            && (|s| >= width ==> r == s)
            && (|s| < width && !(|s| > 0 && (s[0] == '+' || s[0] == '-')) ==>
                  r[|r| - |s|..] == s && forall k :: 0 <= k < |r| - |s| ==> r[k] == '0')
            && (|s| < width && |s| > 0 && (s[0] == '+' || s[0] == '-') ==>
                  r[0] == s[0] && r[|r| - |s| + 1..] == s[1..] && forall k :: 1 <= k <= |r| - |s| ==> r[k] == '0')
  {
  }
}
