/** The JavaScript string operations the modelled code relies on. A `char` here stands for
    one UTF-16 code unit of the source's strings. */
module Strings {
  import opened Wrappers
  import opened Seqs

  /** `parts.join(sep)`. */
  function Join(parts: seq<string>, sep: string): string
  {
    if |parts| == 0 then ""
    else if |parts| == 1 then parts[0]
    else parts[0] + sep + Join(parts[1..], sep)
  }

  /** `s.split(sep)` for a one-character separator: the pieces between the separators,
      with nothing lost, so that joining them back with `sep` rebuilds `s`. */
  function Split(s: string, sep: char): (parts: seq<string>)
    ensures |parts| >= 1
    ensures forall i :: 0 <= i < |parts| ==> sep !in parts[i]
    ensures Join(parts, [sep]) == s
    decreases |s|
  {
    var i := IndexOf(s, sep);
    if i < 0 then [s]
    else
      var rest := Split(s[i + 1..], sep);
      assert ([s[..i]] + rest)[1..] == rest;
      assert s == s[..i] + [sep] + s[i + 1..];
      [s[..i]] + rest
  }

  /** The separator found first in `a + [c] + b` is the one after `a` when `a` has none. */
  lemma IndexOfAfterPrefix(a: string, c: char, b: string)
    requires c !in a
    ensures IndexOf(a + [c] + b, c) == |a|
  {
    var s := a + [c] + b;
    assert s[|a|] == c;
    assert s[..|a|] == a;
    assert forall k :: 0 <= k < |a| ==> s[k] == a[k];
  }

  /** A string without the separator is one piece. */
  lemma SplitWhole(s: string, sep: char)
    requires sep !in s
    ensures Split(s, sep) == [s]
  {
    assert IndexOf(s, sep) == -1;
  }

  /** A separator after a first piece without one splits off that piece. */
  lemma SplitFirst(a: string, sep: char, b: string)
    requires sep !in a
    ensures Split(a + [sep] + b, sep) == [a] + Split(b, sep)
  {
    var s := a + [sep] + b;
    IndexOfAfterPrefix(a, sep, b);
    assert s[..|a|] == a;
    assert s[|a| + 1..] == b;
  }

  /** Splitting undoes joining when no piece holds the separator. */
  lemma {:induction false} SplitJoin(parts: seq<string>, sep: char)
    requires |parts| >= 1
    requires forall i :: 0 <= i < |parts| ==> sep !in parts[i]
    ensures Split(Join(parts, [sep]), sep) == parts
  {
    if |parts| == 1 {
      SplitWhole(parts[0], sep);
    } else {
      var rest := parts[1..];
      SplitFirst(parts[0], sep, Join(rest, [sep]));
      SplitJoin(rest, sep);
      assert parts == [parts[0]] + rest;
    }
  }

  /** The text of `s` before its first `sep`, or all of `s` when it holds none. */
  function UpTo(s: string, sep: char): (r: string)
    ensures r <= s && sep !in r
    ensures |r| < |s| ==> s[|r|] == sep
  {
    var i := IndexOf(s, sep);
    if i < 0 then s else s[..i]
  }

  /** The first piece of `split` is the text before the first separator. */
  lemma SplitHead(s: string, sep: char)
    ensures Split(s, sep)[0] == UpTo(s, sep)
  {
  }

  /** With a separator present, `split` puts the text before the first one first, and the first
      piece of the text after it second. */
  lemma SplitAtFirst(s: string, sep: char)
    requires sep in s
    ensures |Split(s, sep)| >= 2
    ensures Split(s, sep)[0] == s[..IndexOf(s, sep)]
    ensures Split(s, sep)[1] == UpTo(s[IndexOf(s, sep) + 1..], sep)
  {
    var i := IndexOf(s, sep);
    var rest := Split(s[i + 1..], sep);
    assert Split(s, sep) == [s[..i]] + rest;
    SplitHead(s[i + 1..], sep);
  }

  /** The first piece of a joined list is a prefix of the joined string. */
  lemma JoinFirst(parts: seq<string>, sep: string)
    requires |parts| >= 1
    ensures parts[0] <= Join(parts, sep)
  {
  }

  /** A joined prefix of a list is a prefix of the joined list. */
  lemma {:induction false} JoinTake(parts: seq<string>, k: nat, sep: string)
    requires 1 <= k <= |parts|
    ensures Join(parts[..k], sep) <= Join(parts, sep)
  {
    if k > 1 {
      JoinTake(parts[1..], k - 1, sep);
      assert parts[..k][1..] == parts[1..][..k - 1];
    }
  }

  /** `parts.join(sep)` of two parts. */
  lemma JoinTwo(parts: seq<string>, sep: string)
    requires |parts| == 2
    ensures Join(parts, sep) == parts[0] + sep + parts[1]
  {
  }

  /** `parts.join(sep)` of more than two parts: the first two, then the rest behind the separator. */
  lemma JoinMore(parts: seq<string>, sep: string)
    requires |parts| > 2
    ensures Join(parts, sep) == parts[0] + sep + parts[1] + sep + Join(parts[2..], sep)
  {
    assert parts[1..][1..] == parts[2..];
  }

  /** `s.split(sep, limit)`: only the first `limit` pieces are kept. */
  function SplitLimit(s: string, sep: char, limit: nat): (parts: seq<string>)
    ensures |parts| <= limit
    ensures parts <= Split(s, sep)
  {
    var all := Split(s, sep);
    if |all| <= limit then all else all[..limit]
  }

  /** `s.startsWith(prefix)`. */
  predicate StartsWith(s: string, prefix: string) {
    prefix <= s
  }

  /** `s.includes(sub)`: `sub` occurs somewhere in `s`. */
  predicate Includes(s: string, sub: string)
    decreases |s|
  {
    sub <= s || (|s| > 0 && Includes(s[1..], sub))
  }

  /** A copy of `sub` starts at position `i` of `s`. */
  predicate OccursAt(s: string, sub: string, i: int) {
    0 <= i <= |s| - |sub| && s[i..i + |sub|] == sub
  }

  /** A copy of `sub` found by `Includes` starts at a position of `s`. */
  lemma {:induction false} IncludesOccurs(s: string, sub: string) returns (i: nat)
    requires Includes(s, sub)
    ensures OccursAt(s, sub, i)
    decreases |s|
  {
    if sub <= s {
      i := 0;
    } else {
      var j := IncludesOccurs(s[1..], sub);
      assert s[1..][j..j + |sub|] == s[j + 1..j + 1 + |sub|];
      i := j + 1;
    }
  }

  /** A copy of `sub` at any position of `s` makes `Includes` hold. */
  lemma {:induction false} OccursIncludes(s: string, sub: string, i: nat)
    requires OccursAt(s, sub, i)
    ensures Includes(s, sub)
    decreases i
  {
    if i > 0 {
      assert s[1..][i - 1..i - 1 + |sub|] == s[i..i + |sub|];
      OccursIncludes(s[1..], sub, i - 1);
    }
  }

  /** `Includes` holds exactly when some position of `s` starts a copy of `sub`. */
  lemma IncludesAt(s: string, sub: string)
    ensures Includes(s, sub) <==> exists i :: OccursAt(s, sub, i)
  {
    if Includes(s, sub) {
      var i := IncludesOccurs(s, sub);
    }
    if exists i :: OccursAt(s, sub, i) {
      var i :| OccursAt(s, sub, i);
      OccursIncludes(s, sub, i);
    }
  }

  /** `s.replace(pattern, replacement)` with a string pattern: only the first occurrence is replaced. */
  function ReplaceFirst(s: string, pattern: string, replacement: string): (r: string)
    ensures !Includes(s, pattern) ==> r == s
    ensures pattern <= s ==> r == replacement + s[|pattern|..]
    decreases |s|
  {
    if pattern <= s then replacement + s[|pattern|..]
    else if |s| == 0 then s
    else [s[0]] + ReplaceFirst(s[1..], pattern, replacement)
  }

  /** `i` is the first position of `s` that starts a copy of `sub`. */
  predicate FirstOccurrence(s: string, sub: string, i: int) {
    OccursAt(s, sub, i) && forall j :: 0 <= j < i ==> !OccursAt(s, sub, j)
  }

  /** A copy of `sub` at `j + 1` in `s` is a copy at `j` in the tail of `s`. */
  lemma OccursShift(s: string, sub: string, j: nat)
    requires |s| > 0
    ensures OccursAt(s, sub, j + 1) <==> OccursAt(s[1..], sub, j)
  {
    if j + 1 <= |s| - |sub| {
      assert s[1..][j..j + |sub|] == s[j + 1..j + 1 + |sub|];
    }
  }

  /** The first copy of `sub` in the tail of `s` is the first in `s` when `s` does not start with one. */
  lemma FirstOccurrenceShift(s: string, sub: string, j: nat)
    requires |s| > 0 && !(sub <= s) && FirstOccurrence(s[1..], sub, j)
    ensures FirstOccurrence(s, sub, j + 1)
  {
    OccursShift(s, sub, j);
    forall k | 0 <= k < j + 1 ensures !OccursAt(s, sub, k) {
      if k > 0 {
        OccursShift(s, sub, k - 1);
      }
    }
  }

  /** The head of `s` put back in front of a replacement made in its tail. */
  lemma ReplacedInTail(s: string, j: nat, n: nat, replacement: string)
    requires |s| > 0 && j + n <= |s| - 1
    ensures [s[0]] + (s[1..][..j] + replacement + s[1..][j + n..]) == s[..j + 1] + replacement + s[j + 1 + n..]
  {
    assert s[1..][..j] == s[1..j + 1];
    assert s[1..][j + n..] == s[j + 1 + n..];
    assert s[..j + 1] == [s[0]] + s[1..j + 1];
  }

  /** `replace` with a string pattern found in `s` replaces its first occurrence and keeps the
      text on both sides of it. */
  lemma {:induction false} ReplaceFirstOccurrence(s: string, pattern: string, replacement: string) returns (i: nat)
    requires Includes(s, pattern)
    ensures FirstOccurrence(s, pattern, i)
    ensures ReplaceFirst(s, pattern, replacement) == s[..i] + replacement + s[i + |pattern|..]
    decreases |s|
  {
    if pattern <= s {
      i := 0;
      assert s[0..|pattern|] == pattern;
      assert s[..0] == [];
    } else {
      assert |s| > 0 && Includes(s[1..], pattern);
      assert ReplaceFirst(s, pattern, replacement) == [s[0]] + ReplaceFirst(s[1..], pattern, replacement);
      var j := ReplaceFirstOccurrence(s[1..], pattern, replacement);
      FirstOccurrenceShift(s, pattern, j);
      ReplacedInTail(s, j, |pattern|, replacement);
      i := j + 1;
    }
  }

  /** The first-occurrence form of `replace`, for use in expressions. */
  lemma ReplaceFirstAtFirst(s: string, pattern: string, replacement: string)
    ensures Includes(s, pattern) ==>
              exists i :: FirstOccurrence(s, pattern, i)
                          && ReplaceFirst(s, pattern, replacement) == s[..i] + replacement + s[i + |pattern|..]
  {
    if Includes(s, pattern) {
      var i := ReplaceFirstOccurrence(s, pattern, replacement);
    }
  }

  /** The upper-case form of an ASCII letter; every other character is kept. */
  function UpperChar(c: char): char {
    if 'a' <= c <= 'z' then (c as int - 32) as char else c
  }

  /** `s.toUpperCase()`, restricted to the ASCII letters. */
  function ToUpper(s: string): (r: string)
    ensures |r| == |s|
    ensures forall i :: 0 <= i < |s| ==> r[i] == UpperChar(s[i])
  {
    seq(|s|, i requires 0 <= i < |s| => UpperChar(s[i]))
  }

  /** An upper-cased string holds no lower-case ASCII letter, and upper-casing it again changes nothing. */
  lemma ToUpperIdempotent(s: string)
    ensures forall i :: 0 <= i < |s| ==> !('a' <= ToUpper(s)[i] <= 'z')
    ensures ToUpper(ToUpper(s)) == ToUpper(s)
  {
  }

  /** JavaScript's `a < b` on strings: lexicographic order of code units, a proper prefix first. */
  predicate Less(a: string, b: string)
    decreases |a|
  {
    if |b| == 0 then false
    else if |a| == 0 then true
    else if a[0] != b[0] then a[0] < b[0]
    else Less(a[1..], b[1..])
  }

  lemma {:induction false} LessIrreflexive(a: string)
    ensures !Less(a, a)
    decreases |a|
  {
    if |a| > 0 {
      LessIrreflexive(a[1..]);
    }
  }

  lemma {:induction false} LessTransitive(a: string, b: string, c: string)
    requires Less(a, b) && Less(b, c)
    ensures Less(a, c)
    decreases |a|
  {
    if |a| > 0 && a[0] == b[0] && b[0] == c[0] {
      LessTransitive(a[1..], b[1..], c[1..]);
    }
  }

  /** Any two different strings are ordered one way or the other, and never both ways. */
  lemma {:induction false} LessTotal(a: string, b: string)
    ensures a != b ==> Less(a, b) || Less(b, a)
    ensures !(Less(a, b) && Less(b, a))
    decreases |a|
  {
    if |a| > 0 && |b| > 0 && a[0] == b[0] {
      LessTotal(a[1..], b[1..]);
      if a != b {
        assert a == [a[0]] + a[1..] && b == [b[0]] + b[1..];
      }
    }
  }

  /** The characters `parseInt` skips before the number (white space and line terminators). */
  predicate IsJsWhitespace(c: char) {
    c == ' ' || c == '\t' || c == '\n' || c == '\r' || c == '\U{000B}' || c == '\U{000C}'
    || c == '\U{00A0}' || c == '\U{FEFF}' || c == '\U{1680}' || ('\U{2000}' <= c <= '\U{200A}')
    || c == '\U{2028}' || c == '\U{2029}' || c == '\U{202F}' || c == '\U{205F}' || c == '\U{3000}'
  }

  /** `s` without its leading white space. */
  function TrimStart(s: string): (r: string)
    ensures |r| <= |s|
    ensures r == s[|s| - |r|..]
    ensures forall i :: 0 <= i < |s| - |r| ==> IsJsWhitespace(s[i])
    ensures |r| == 0 || !IsJsWhitespace(r[0])
  {
    if |s| > 0 && IsJsWhitespace(s[0]) then TrimStart(s[1..]) else s
  }

  /** The value of a digit in radix 36 (`0`-`9`, then `a`-`z` in either case); 36 for any other character. */
  function DigitValue(c: char): nat {
    if '0' <= c <= '9' then c as nat - '0' as nat
    else if 'a' <= c <= 'z' then c as nat - 'a' as nat + 10
    else if 'A' <= c <= 'Z' then c as nat - 'A' as nat + 10
    else 36
  }

  predicate AllDigits(s: string, radix: nat) {
    forall i :: 0 <= i < |s| ==> DigitValue(s[i]) < radix
  }

  /** The longest prefix of `s` made of digits of `radix`. */
  function LeadingDigits(s: string, radix: nat): (d: string)
    ensures d <= s
    ensures AllDigits(d, radix)
    ensures |d| < |s| ==> DigitValue(s[|d|]) >= radix
  {
    if |s| > 0 && DigitValue(s[0]) < radix then [s[0]] + LeadingDigits(s[1..], radix) else ""
  }

  /** The number written by the digits `ds` in `radix`. */
  function DigitsValue(ds: string, radix: nat): nat
    requires AllDigits(ds, radix)
  {
    if |ds| == 0 then 0 else DigitsValue(ds[..|ds| - 1], radix) * radix + DigitValue(ds[|ds| - 1])
  }

  /** The digits after the sign: an optional `0x`/`0X` prefix selects radix 16, and as many digits
      of the radix as follow are read; `None` when there is none. */
  predicate HexPrefix(u: string) {
    |u| >= 2 && u[0] == '0' && (u[1] == 'x' || u[1] == 'X')
  }

  function ParseUnsigned(u: string): Option<nat> {
    var hex := HexPrefix(u);
    var radix := if hex then 16 else 10;
    var ds := LeadingDigits(if hex then u[2..] else u, radix);
    if |ds| == 0 then None else Some(DigitsValue(ds, radix))
  }

  /** `parseInt(s)` with no radix: skips leading white space, reads an optional sign, then the
      digits `ParseUnsigned` reads; `None` stands for `NaN`. */
  function ParseInt(s: string): Option<int> {
    var t := TrimStart(s);
    var negative := |t| > 0 && t[0] == '-';
    var u := if |t| > 0 && (t[0] == '-' || t[0] == '+') then t[1..] else t;
    match ParseUnsigned(u)
    case None => None
    case Some(n) =>
      var v: int := if negative then -(n as int) else n;
      Some(v)
  }

  /** The decimal digit for `d`. */
  function DigitChar(d: nat): char
    requires d < 10
  {
    ('0' as int + d) as char
  }

  /** `String(n)` for a natural number: its decimal digits, most significant first. */
  function Decimal(n: nat): (r: string)
    ensures |r| >= 1
    ensures AllDigits(r, 10)
  {
    if n < 10 then [DigitChar(n)] else Decimal(n / 10) + [DigitChar(n % 10)]
  }

  lemma {:induction false} DecimalValue(n: nat)
    ensures DigitsValue(Decimal(n), 10) == n
  {
    var ds := Decimal(n);
    if n >= 10 {
      DecimalValue(n / 10);
      assert ds[..|ds| - 1] == Decimal(n / 10);
    }
  }

  lemma {:induction false} LeadingDigitsOfDigits(s: string, radix: nat)
    requires AllDigits(s, radix)
    ensures LeadingDigits(s, radix) == s
  {
    if |s| > 0 {
      LeadingDigitsOfDigits(s[1..], radix);
    }
  }

  lemma DigitsHaveNoHexPrefix(d: string)
    requires AllDigits(d, 10)
    ensures !HexPrefix(d)
  {
    if |d| >= 2 {
      assert DigitValue(d[1]) < 10;
    }
  }

  /** A non-empty string of decimal digits reads as its value: it cannot start with `0x`. */
  lemma ParseUnsignedDigits(d: string)
    requires |d| > 0 && AllDigits(d, 10)
    ensures ParseUnsigned(d) == Some(DigitsValue(d, 10))
  {
    DigitsHaveNoHexPrefix(d);
    LeadingDigitsOfDigits(d, 10);
  }

  lemma ParseUnsignedDecimal(n: nat)
    ensures ParseUnsigned(Decimal(n)) == Some(n)
  {
    ParseUnsignedDigits(Decimal(n));
    DecimalValue(n);
  }

  /** `parseInt` reads back the decimal form of every natural number. */
  lemma ParseIntDecimal(n: nat)
    ensures ParseInt(Decimal(n)) == Some(n)
  {
    var d := Decimal(n);
    assert DigitValue(d[0]) < 10;
    assert '0' <= d[0] <= '9';
    assert !IsJsWhitespace(d[0]);
    assert TrimStart(d) == d;
    assert d[0] != '-' && d[0] != '+';
    ParseUnsignedDecimal(n);
  }
}
