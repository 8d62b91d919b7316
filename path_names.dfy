/**
 * The file-name handling both ingestion scripts rely on: `str.endswith`,
 * the root part of `os.path.splitext`, Python's `int()` applied to a file
 * stem and `str()` of an integer (how the scraper names image files).
 *
 * Names come from a directory listing, so they never hold a path separator;
 * `Root` therefore only looks for the last '.'.
 */
module PathNames {
  import opened Wrappers

  predicate EndsWith(s: string, suffix: string) {
    |suffix| <= |s| && s[|s| - |suffix|..] == suffix
  }

  predicate AllDots(s: string) {
    forall k :: 0 <= k < |s| ==> s[k] == '.'
  }

  /** The position of the last '.' in `s`, if there is one. */
  function LastDot(s: string): (r: Option<nat>)
    ensures r.Some? ==> r.value < |s|
  {
    if s == [] then None
    else if s[|s| - 1] == '.' then Some(|s| - 1)
    else LastDot(s[..|s| - 1])
  }

  /** `LastDot` finds the last dot, and None means there is no dot. */
  lemma {:induction false} LastDotFinds(s: string)
    ensures LastDot(s).Some? ==> LastDot(s).value < |s| && s[LastDot(s).value] == '.'
    ensures LastDot(s).Some? ==> forall k :: LastDot(s).value < k < |s| ==> s[k] != '.'
    ensures LastDot(s).None? ==> forall k :: 0 <= k < |s| ==> s[k] != '.'
  {
    if s != [] && s[|s| - 1] != '.' {
      LastDotFinds(s[..|s| - 1]);
    }
  }

  /**
   * `os.path.splitext(name)[0]`: everything before the last '.', unless the
   * characters before that dot are all dots (a leading-dot name such as
   * ".json" has no extension and is its own root).
   */
  function Root(name: string): string {
    match LastDot(name)
    case None => name
    case Some(i) => if AllDots(name[..i]) then name else name[..i]
  }

  /** An extension as splitext sees it: a '.' followed by no further dot. */
  predicate IsExtension(ext: string) {
    |ext| >= 1 && ext[0] == '.' && forall k :: 1 <= k < |ext| ==> ext[k] != '.'
  }

  /**
   * The root of `stem + ext` is `stem`, except when `stem` consists of dots
   * only (the empty stem included): then the whole name is the root.
   */
  lemma RootOfExtended(stem: string, ext: string)
    requires IsExtension(ext)
    ensures Root(stem + ext) == if AllDots(stem) then stem + ext else stem
  {
    var name := stem + ext;
    LastDotFinds(name);
    assert name[|stem|] == '.';
    assert forall k :: |stem| < k < |name| ==> name[k] == ext[k - |stem|];
    assert LastDot(name) == Some(|stem|);
    assert name[..|stem|] == stem;
  }

  // ---- Python's int() on a string, base 10 ----

  /** The ASCII characters Python's `str.isspace` accepts. */
  predicate IsSpace(c: char) {
    c == ' ' || ('\t' <= c <= '\r') || ('\U{1C}' <= c <= '\U{1F}')
  }

  predicate IsDigit(c: char) {
    '0' <= c <= '9'
  }

  function StripLeft(s: string): string {
    if s != [] && IsSpace(s[0]) then StripLeft(s[1..]) else s
  }

  function StripRight(s: string): string {
    if s != [] && IsSpace(s[|s| - 1]) then StripRight(s[..|s| - 1]) else s
  }

  /** `str.strip()`: the surrounding whitespace `int()` tolerates. */
  function Strip(s: string): string {
    StripRight(StripLeft(s))
  }

  /**
   * Digits with optional single underscores between them, as Python's int()
   * accepts them ("1_000"); leading zeros are allowed.
   */
  predicate DigitGroups(s: string) {
    && |s| > 0
    && IsDigit(s[0]) && IsDigit(s[|s| - 1])
    && (forall k :: 0 <= k < |s| ==> IsDigit(s[k]) || s[k] == '_')
    && (forall k :: 0 <= k < |s| - 1 ==> s[k] == '_' ==> s[k + 1] != '_')
  }

  /** The value of the digits of `s`, underscores ignored. */
  function DigitsValue(s: string): nat {
    if s == [] then 0
    else if IsDigit(s[|s| - 1]) then
      10 * DigitsValue(s[..|s| - 1]) + (s[|s| - 1] as int - '0' as int)
    else DigitsValue(s[..|s| - 1])
  }

  /**
   * `int(s)`: surrounding whitespace, an optional sign, then digit groups;
   * anything else is a ValueError, here `None`.
   */
  function ParseInt(s: string): Option<int> {
    var t := Strip(s);
    if |t| > 0 && (t[0] == '-' || t[0] == '+') then
      if DigitGroups(t[1..]) then
        var v: int := DigitsValue(t[1..]);
        Some(if t[0] == '-' then -v else v)
      else None
    else if DigitGroups(t) then Some(DigitsValue(t))
    else None
  }

  /** `StripLeft` drops a prefix of whitespace and nothing else. */
  lemma {:induction false} StripLeftDrops(s: string)
    ensures |StripLeft(s)| <= |s| && StripLeft(s) == s[|s| - |StripLeft(s)|..]
    ensures forall m :: 0 <= m < |s| - |StripLeft(s)| ==> IsSpace(s[m])
  {
    if s != [] && IsSpace(s[0]) {
      StripLeftDrops(s[1..]);
      assert forall m :: 1 <= m < |s| ==> s[1..][m - 1] == s[m];
    }
  }

  /** `StripRight` drops a suffix of whitespace and nothing else. */
  lemma {:induction false} StripRightDrops(s: string)
    ensures |StripRight(s)| <= |s| && StripRight(s) == s[..|StripRight(s)|]
    ensures forall m :: |StripRight(s)| <= m < |s| ==> IsSpace(s[m])
  {
    if s != [] && IsSpace(s[|s| - 1]) {
      StripRightDrops(s[..|s| - 1]);
    }
  }

  /** A character that is not whitespace survives `strip()`. */
  lemma StripKeeps(s: string, k: nat) returns (j: nat)
    requires k < |s| && !IsSpace(s[k])
    ensures j < |Strip(s)| && Strip(s)[j] == s[k]
  {
    var l := StripLeft(s);
    StripLeftDrops(s);
    var i := |s| - |l|;
    assert i <= k;
    StripRightDrops(l);
    assert k - i < |StripRight(l)|;
    j := k - i;
  }

  /**
   * A stem holding a character that is neither whitespace, a digit, an
   * underscore nor a sign is rejected by `int()`.
   */
  lemma ParseIntRejects(s: string, k: nat)
    requires k < |s| && !IsSpace(s[k]) && !IsDigit(s[k]) && s[k] !in "_+-"
    ensures ParseInt(s).None?
  {
    var j := StripKeeps(s, k);
    var t := Strip(s);
    if |t| > 0 && (t[0] == '-' || t[0] == '+') {
      assert j > 0;
      assert t[1..][j - 1] == s[k];
    }
  }

  // ---- str() of an integer ----

  function DigitChar(d: nat): (c: char)
    requires d < 10
    ensures IsDigit(c) && c as int - '0' as int == d
  {
    (d + '0' as int) as char
  }

  /** The decimal digits of `n`, most significant first, no leading zero. */
  function Natural(n: nat): (r: string)
    ensures |r| > 0
  {
    if n < 10 then [DigitChar(n)] else Natural(n / 10) + [DigitChar(n % 10)]
  }

  /** `str(n)`. */
  function Decimal(n: int): string {
    if n < 0 then "-" + Natural(-n) else Natural(n)
  }

  lemma {:induction false} NaturalDigits(n: nat)
    ensures forall k :: 0 <= k < |Natural(n)| ==> IsDigit(Natural(n)[k])
    ensures DigitsValue(Natural(n)) == n
  {
    if n >= 10 {
      NaturalDigits(n / 10);
      var r := Natural(n);
      assert r[..|r| - 1] == Natural(n / 10);
    }
  }

  lemma StripOfDecimal(n: int)
    ensures Strip(Decimal(n)) == Decimal(n)
  {
    var s := Decimal(n);
    NaturalDigits(if n < 0 then -n else n);
    assert !IsSpace(s[0]);
    assert StripLeft(s) == s;
    assert !IsSpace(s[|s| - 1]);
  }

  /** `int(str(n)) == n`: parsing undoes printing. */
  lemma ParseDecimal(n: int)
    ensures ParseInt(Decimal(n)) == Some(n)
  {
    var m: nat := if n < 0 then -n else n;
    NaturalDigits(m);
    StripOfDecimal(n);
    var s := Decimal(n);
    if n < 0 {
      assert s[1..] == Natural(m);
    }
  }
}
