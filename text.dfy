/**
 * The pieces of Python's `str` and `pathlib` behaviour that the archive code
 * relies on: `isnumeric`, `int()`, `str()`, `'%02d'`, `upper`, `isupper`,
 * `endswith`, `rfind`, `split`, and `PurePath.suffix` / `PurePath.stem`.
 * Only ASCII digits and ASCII letters are given their Unicode meaning.
 */
module Text {

  // ---------------------------------------------------------------------------
  // Decimal numbers
  // ---------------------------------------------------------------------------

  predicate IsDigit(c: char) {
    '0' <= c <= '9'
  }

  predicate AllDigits(s: string) {
    forall i :: 0 <= i < |s| ==> IsDigit(s[i])
  }

  /** `s.isnumeric()`, for ASCII digits: non-empty and digits only. */
  predicate IsNumeric(s: string) {
    |s| > 0 && AllDigits(s)
  }

  /** `int(s)` for a string of ASCII digits. */
  function ParseDecimal(s: string): nat
    requires AllDigits(s)
    decreases |s|
  {
    if s == [] then 0 else 10 * ParseDecimal(s[..|s| - 1]) + (s[|s| - 1] as int - '0' as int)
  }

  function DigitChar(d: nat): (c: char)
    requires d < 10
    ensures IsDigit(c) && c as int - '0' as int == d
  {
    ('0' as int + d) as char
  }

  /** `str(n)` for a non-negative integer: its shortest decimal spelling. */
  function NatToDecimal(n: nat): (r: string)
    ensures IsNumeric(r)
    ensures (r[0] == '0') == (n == 0)
    ensures n < 10 <==> |r| == 1
    decreases n
  {
    if n < 10 then [DigitChar(n)] else NatToDecimal(n / 10) + [DigitChar(n % 10)]
  }

  /** Reading back what `str` wrote gives the number again. */
  lemma {:induction false} ParseNatToDecimal(n: nat)
    ensures ParseDecimal(NatToDecimal(n)) == n
    decreases n
  {
    if n >= 10 {
      ParseNatToDecimal(n / 10);
      var s := NatToDecimal(n);
      assert s[..|s| - 1] == NatToDecimal(n / 10);
    }
  }

  /** `str(i)` for any integer, with a leading `-` for negative ones. */
  function IntToString(i: int): (r: string)
    ensures |r| > 0
    ensures i >= 0 <==> IsNumeric(r)
  {
    if i < 0 then
      var r := "-" + NatToDecimal(-i);
      assert !IsDigit(r[0]);
      r
    else
      NatToDecimal(i)
  }

  /** Distinct integers are spelled differently, so distinct ids name distinct directories. */
  lemma IntToStringInjective(a: int, b: int)
    requires IntToString(a) == IntToString(b)
    ensures a == b
  {
    if a >= 0 && b >= 0 {
      ParseNatToDecimal(a);
      ParseNatToDecimal(b);
    } else if a < 0 && b < 0 {
      assert NatToDecimal(-a) == IntToString(a)[1..];
      assert NatToDecimal(-b) == IntToString(b)[1..];
      ParseNatToDecimal(-a);
      ParseNatToDecimal(-b);
    }
  }

  /** A leading zero does not change the value `int()` reads. */
  lemma {:induction false} ParseLeadingZero(s: string)
    requires AllDigits(s)
    ensures AllDigits("0" + s) && ParseDecimal("0" + s) == ParseDecimal(s)
    decreases |s|
  {
    if s != [] {
      ParseLeadingZero(s[..|s| - 1]);
      assert ("0" + s)[..|"0" + s| - 1] == "0" + s[..|s| - 1];
    }
  }

  /** `'%02d' % n`: the decimal spelling of n, zero-padded to at least two digits. */
  function ZeroPad2(n: nat): (r: string)
    ensures IsNumeric(r) && |r| >= 2
    ensures ParseDecimal(r) == n
    ensures |r| > 2 ==> r[0] != '0'
  {
    var d := NatToDecimal(n);
    ParseNatToDecimal(n);
    ParseLeadingZero(d);
    if |d| < 2 then "0" + d else d
  }

  // ---------------------------------------------------------------------------
  // Letter case
  // ---------------------------------------------------------------------------

  predicate IsAsciiLower(c: char) {
    'a' <= c <= 'z'
  }

  predicate IsAsciiUpper(c: char) {
    'A' <= c <= 'Z'
  }

  predicate IsAsciiLetter(c: char) {
    IsAsciiLower(c) || IsAsciiUpper(c)
  }

  function UpperChar(c: char): char {
    if IsAsciiLower(c) then (c as int - 32) as char else c
  }

  /** `s.upper()`: every ASCII lower-case letter becomes upper-case, the rest is kept. */
  function Upper(s: string): (r: string)
    ensures |r| == |s|
    ensures forall i :: 0 <= i < |r| ==> !IsAsciiLower(r[i])
    ensures forall i :: 0 <= i < |s| ==> (IsAsciiLower(s[i]) ==> IsAsciiUpper(r[i]))
    ensures forall i :: 0 <= i < |s| ==> (!IsAsciiLower(s[i]) ==> r[i] == s[i])
  {
    seq(|s|, i requires 0 <= i < |s| => UpperChar(s[i]))
  }

  /** `s.isupper()`: at least one cased character and no lower-case one. */
  predicate IsUpper(s: string) {
    (exists i :: 0 <= i < |s| && IsAsciiUpper(s[i])) && forall i :: 0 <= i < |s| ==> !IsAsciiLower(s[i])
  }

  /** Upper-casing is idempotent. */
  lemma UpperIdempotent(s: string)
    ensures Upper(Upper(s)) == Upper(s)
  {
  }

  /** An upper-cased string passes `isupper` exactly when it has a letter. */
  lemma UpperIsUpper(s: string)
    ensures IsUpper(Upper(s)) <==> exists i :: 0 <= i < |s| && IsAsciiLetter(s[i])
  {
    var r := Upper(s);
    if exists i :: 0 <= i < |s| && IsAsciiLetter(s[i]) {
      var i :| 0 <= i < |s| && IsAsciiLetter(s[i]);
      assert IsAsciiUpper(r[i]);
    }
    if IsUpper(r) {
      var i :| 0 <= i < |r| && IsAsciiUpper(r[i]);
      assert IsAsciiLetter(s[i]);
    }
  }

  // ---------------------------------------------------------------------------
  // Prefixes, suffixes, searching and splitting
  // ---------------------------------------------------------------------------

  predicate StartsWith(s: string, p: string) {
    |p| <= |s| && s[..|p|] == p
  }

  predicate EndsWith(s: string, p: string) {
    |p| <= |s| && s[|s| - |p|..] == p
  }

  /** `s.rfind(c)`: the last index of c in s, or -1 when c does not occur. */
  function RFind(s: string, c: char): (r: int)
    ensures -1 <= r < |s|
    ensures r >= 0 ==> s[r] == c
    ensures forall j :: r < j < |s| ==> s[j] != c
    decreases |s|
  {
    if s == [] then -1
    else if s[|s| - 1] == c then |s| - 1
    else RFind(s[..|s| - 1], c)
  }

  /** `s.split(c)`: the pieces between the occurrences of c (at least one piece). */
  function Split(s: string, c: char): (parts: seq<string>)
    ensures |parts| >= 1
    ensures forall k :: 0 <= k < |parts| ==> c !in parts[k]
    decreases |s|
  {
    var i := RFind(s, c);
    if i < 0 then
      [s]
    else
      var last := s[i + 1..];
      assert c !in last by {
        forall j | 0 <= j < |last| ensures last[j] != c { assert last[j] == s[i + 1 + j]; }
      }
      Split(s[..i], c) + [last]
  }

  /** `c.join(parts)`. */
  function JoinWith(parts: seq<string>, c: char): string
    requires |parts| >= 1
  {
    if |parts| == 1 then parts[0] else JoinWith(parts[..|parts| - 1], c) + [c] + parts[|parts| - 1]
  }

  /** Joining the pieces of a split gives back the original string. */
  lemma {:induction false} JoinSplit(s: string, c: char)
    ensures JoinWith(Split(s, c), c) == s
    decreases |s|
  {
    var i := RFind(s, c);
    if i >= 0 {
      var prev := Split(s[..i], c);
      var parts := prev + [s[i + 1..]];
      assert Split(s, c) == parts;
      JoinSplit(s[..i], c);
      assert parts[..|parts| - 1] == prev;
      assert JoinWith(parts, c) == s[..i] + [c] + s[i + 1..];
      assert s == s[..i] + [c] + s[i + 1..];
    }
  }

  /** The first piece of a split is a prefix of the string, followed by the separator unless it is the whole string. */
  lemma {:induction false} SplitFirst(s: string, c: char)
    ensures StartsWith(s, Split(s, c)[0])
    ensures |Split(s, c)[0]| < |s| ==> s[|Split(s, c)[0]|] == c
    decreases |s|
  {
    var i := RFind(s, c);
    if i >= 0 {
      var t := s[..i];
      SplitFirst(t, c);
      assert Split(s, c)[0] == Split(t, c)[0];
      var p := Split(t, c)[0];
      assert s[..|p|] == t[..|p|];
      if |p| < i {
        assert s[|p|] == t[|p|];
      }
    }
  }

  /** The first part of a split is either the whole string or a prefix followed by the separator. */
  lemma SplitFirstPart(s: string, c: char, p: string)
    ensures Split(s, c)[0] == p ==> s == p || StartsWith(s, p + [c])
  {
    SplitFirst(s, c);
    if Split(s, c)[0] == p && |p| < |s| {
      assert s[..|p| + 1] == s[..|p|] + [s[|p|]];
    }
  }

  /** A string without c is split into itself alone. */
  lemma SplitNoSeparator(s: string, c: char)
    requires c !in s
    ensures Split(s, c) == [s]
  {
    assert RFind(s, c) == -1;
  }

  /** Splitting `a + [c] + b` where b has no c: the last piece is b, the rest is the split of a. */
  lemma SplitLast(a: string, c: char, b: string)
    requires c !in b
    ensures Split(a + [c] + b, c) == Split(a, c) + [b]
  {
    var s := a + [c] + b;
    var i := RFind(s, c);
    assert s[|a|] == c;
    assert i == |a|;
    assert s[..i] == a;
    assert s[i + 1..] == b;
  }

  /** Splitting `a + [c] + b` where a has no c: the first piece is a, the rest is the split of b. */
  lemma {:induction false} SplitFirstSeparator(a: string, c: char, b: string)
    requires c !in a
    ensures Split(a + [c] + b, c) == [a] + Split(b, c)
    decreases |b|
  {
    var i := RFind(b, c);
    if i < 0 {
      SplitNoSeparator(a, c);
      SplitNoSeparator(b, c);
      SplitLast(a, c, b);
    } else {
      var b1, b2 := b[..i], b[i + 1..];
      assert b == b1 + [c] + b2;
      assert c !in b2 by {
        forall j | 0 <= j < |b2| ensures b2[j] != c { assert b2[j] == b[i + 1 + j]; }
      }
      SplitFirstSeparator(a, c, b1);
      SplitLast(b1, c, b2);
      assert a + [c] + b == (a + [c] + b1) + [c] + b2;
      SplitLast(a + [c] + b1, c, b2);
    }
  }

  /** The pieces of `p.split('/')` that are not empty: the components `pathlib` makes of a relative path. */
  function PathParts(s: string): seq<string> {
    NonEmpty(Split(s, '/'))
  }

  function NonEmpty(parts: seq<string>): (r: seq<string>)
    ensures forall k :: 0 <= k < |r| ==> r[k] != ""
  {
    if parts == [] then []
    else (if parts[0] == "" then [] else [parts[0]]) + NonEmpty(parts[1..])
  }

  /** A non-empty name without `/` is a single path component. */
  lemma PathPartsOfName(s: string)
    requires s != "" && '/' !in s
    ensures PathParts(s) == [s]
  {
    SplitNoSeparator(s, '/');
    assert NonEmpty([s]) == [s] + NonEmpty([]);
  }

  /** `a/b` with plain names a and b is the two components a and b. */
  lemma PathPartsOfPair(a: string, b: string)
    requires a != "" && b != "" && '/' !in a && '/' !in b
    ensures PathParts(a + "/" + b) == [a, b]
  {
    SplitLast(a, '/', b);
    SplitNoSeparator(a, '/');
    assert a + "/" + b == a + ['/'] + b;
    assert Split(a + "/" + b, '/') == [a, b];
    assert NonEmpty([a, b]) == [a] + NonEmpty([b]);
  }

  // ---------------------------------------------------------------------------
  // pathlib suffix and stem (as in CPython 3.12)
  // ---------------------------------------------------------------------------

  /** `PurePath(name).suffix`: from the last dot on, unless that dot is first or last. */
  function Suffix(name: string): string {
    var i := RFind(name, '.');
    if 0 < i < |name| - 1 then name[i..] else ""
  }

  /** `PurePath(name).stem`: the name without its suffix. */
  function Stem(name: string): string {
    var i := RFind(name, '.');
    if 0 < i < |name| - 1 then name[..i] else name
  }

  /** Stem and suffix split a name: together they give it back, and a suffix is one dot-led piece. */
  lemma StemSuffix(name: string)
    ensures Stem(name) + Suffix(name) == name
    ensures Suffix(name) != "" ==> Suffix(name)[0] == '.' && |Suffix(name)| >= 2 && '.' !in Suffix(name)[1..]
    ensures Suffix(name) != "" ==> Stem(name) != ""
  {
    var i := RFind(name, '.');
    if 0 < i < |name| - 1 {
      assert name[..i] + name[i..] == name;
      var tail := name[i + 1..];
      assert name[i..][1..] == tail;
      forall k | 0 <= k < |tail|
        ensures tail[k] != '.'
      {
        assert tail[k] == name[i + 1 + k];
      }
    }
  }

  /** A name made of a non-empty stem and a dot-led extension without further dots. */
  lemma SuffixOfAppended(stem: string, ext: string)
    requires stem != "" && |ext| >= 2 && ext[0] == '.' && '.' !in ext[1..]
    ensures Suffix(stem + ext) == ext
    ensures Stem(stem + ext) == stem
  {
    var s := stem + ext;
    var i := RFind(s, '.');
    assert s[|stem|] == '.';
    forall j | |stem| < j < |s|
      ensures s[j] != '.'
    {
      assert s[j] == ext[1..][j - |stem| - 1];
    }
    assert i == |stem|;
    assert s[i..] == ext;
    assert s[..i] == stem;
  }
}
