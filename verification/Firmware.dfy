/** Firmware versions: how a version string is read, and when an update is offered. */
module Firmware {
  import opened Prelude

  const LATEST: string := "2.0.0"

  // ---------------------------------------------------------------- reading

  predicate IsDigit(c: char) {
    '0' <= c <= '9'
  }

  function DigitValue(c: char): nat
    requires IsDigit(c)
  {
    (c - '0') as int
  }

  predicate IsSpace(c: char) {
    c == ' ' || '\t' <= c <= '\r' || '\U{1c}' <= c <= '\U{1f}'
  }

  function TrimLeft(s: string): string {
    if s != "" && IsSpace(s[0]) then TrimLeft(s[1..]) else s
  }

  function TrimRight(s: string): string {
    if s != "" && IsSpace(s[|s| - 1]) then TrimRight(s[..|s| - 1]) else s
  }

  function StripLeft(s: string, c: char): string {
    if s != "" && s[0] == c then StripLeft(s[1..], c) else s
  }

  function StripRight(s: string, c: char): string {
    if s != "" && s[|s| - 1] == c then StripRight(s[..|s| - 1], c) else s
  }

  /** Digits with single underscores between them, read from the right. */
  function ParseDigits(s: string): Option<int> {
    if s == "" then None
    else
      var last, front := s[|s| - 1], s[..|s| - 1];
      if !IsDigit(last) then None
      else if front == "" then Some(DigitValue(last))
      else
        var rest := ParseDigits(if front[|front| - 1] == '_' then front[..|front| - 1] else front);
        if rest.None? then None else Some(10 * rest.value + DigitValue(last))
  }

  /** Decimal integers as the int constructor takes them: surrounding blanks and a sign are allowed. */
  function ParseInt(s: string): Option<int> {
    var t := TrimRight(TrimLeft(s));
    if t != "" && (t[0] == '-' || t[0] == '+') then
      var digits := ParseDigits(t[1..]);
      if digits.Some? && t[0] == '-' then Some(-digits.value) else digits
    else ParseDigits(t)
  }

  /** The pieces between separators, one more than there are separators. */
  function Split(s: string, sep: char): (pieces: seq<string>)
    ensures pieces != []
  {
    if s == "" then [""]
    else
      var rest := Split(s[1..], sep);
      if s[0] == sep then [""] + rest else [[s[0]] + rest[0]] + rest[1..]
  }

  /** None when any piece is not an integer. */
  function ParseAll(pieces: seq<string>): Option<seq<int>> {
    if pieces == [] then Some([])
    else
      var first, rest := ParseInt(pieces[0]), ParseAll(pieces[1..]);
      if first.None? || rest.None? then None else Some([first.value] + rest.value)
  }

  /** Missing, empty and malformed versions all read as 0.0.0. */
  function ParseVersion(version: Option<string>): seq<int> {
    if version.None? || version.value == "" then [0, 0, 0]
    else
      var parsed := ParseAll(Split(StripRight(StripLeft(version.value, 'v'), 'v'), '.'));
      if parsed.None? then [0, 0, 0] else parsed.value
  }

  /** Tuple comparison: the first difference decides, and a proper prefix is smaller. */
  predicate Less(a: seq<int>, b: seq<int>) {
    if b == [] then false
    else if a == [] then true
    else a[0] < b[0] || (a[0] == b[0] && Less(a[1..], b[1..]))
  }

  predicate UpdateAvailable(current: Option<string>) {
    Less(ParseVersion(current), ParseVersion(Some(LATEST)))
  }

  // ---------------------------------------------------------------- spelling

  function Decimal(n: nat): (s: string)
    ensures s != "" && forall i :: 0 <= i < |s| ==> IsDigit(s[i])
  {
    (if n < 10 then "" else Decimal(n / 10)) + [('0' as int + n % 10) as char]
  }

  function Dotted(parts: seq<nat>): string
    requires parts != []
  {
    if |parts| == 1 then Decimal(parts[0]) else Decimal(parts[0]) + "." + Dotted(parts[1..])
  }

  lemma {:induction false} DecimalParses(n: nat)
    ensures ParseDigits(Decimal(n)) == Some(n)
  {
    var s := Decimal(n);
    var last := s[|s| - 1];
    assert DigitValue(last) == n % 10;
    if n >= 10 {
      DecimalParses(n / 10);
      assert s[..|s| - 1] == Decimal(n / 10);
    } else {
      assert s[..|s| - 1] == "";
    }
  }

  /** A string that starts and ends with a digit has no blanks to trim. */
  lemma DigitsStay(s: string)
    requires s != "" && IsDigit(s[0]) && IsDigit(s[|s| - 1])
    ensures TrimRight(TrimLeft(s)) == s
  {
  }

  lemma DecimalIsInt(n: nat)
    ensures ParseInt(Decimal(n)) == Some(n)
  {
    DigitsStay(Decimal(n));
    DecimalParses(n);
  }

  lemma {:induction false} SplitFirst(piece: string, rest: string, sep: char)
    requires forall i :: 0 <= i < |piece| ==> piece[i] != sep
    ensures Split(piece + [sep] + rest, sep) == [piece] + Split(rest, sep)
    ensures Split(piece, sep) == [piece]
  {
    var s := piece + [sep] + rest;
    if piece == "" {
      assert s[1..] == rest;
    } else {
      assert s[0] == piece[0] && s[1..] == piece[1..] + [sep] + rest;
      SplitFirst(piece[1..], rest, sep);
      assert [piece[0]] + piece[1..] == piece;
      var tail := [piece[1..]] + Split(rest, sep);
      assert tail[1..] == Split(rest, sep);
    }
  }

  lemma {:induction false} DottedParses(parts: seq<nat>)
    requires parts != []
    ensures ParseAll(Split(Dotted(parts), '.')).Some?
    ensures ParseAll(Split(Dotted(parts), '.')).value == parts
  {
    var head := Decimal(parts[0]);
    DecimalIsInt(parts[0]);
    if |parts| == 1 {
      SplitFirst(head, "", '.');
      assert ParseAll([head][1..]) == Some([]);
      assert parts == [parts[0]];
    } else {
      SplitFirst(head, Dotted(parts[1..]), '.');
      DottedParses(parts[1..]);
      var tail := Split(Dotted(parts[1..]), '.');
      assert ([head] + tail)[1..] == tail;
      assert parts == [parts[0]] + parts[1..];
    }
  }

  lemma {:induction false} DottedEnds(parts: seq<nat>)
    requires parts != []
    ensures Dotted(parts) != "" && IsDigit(Dotted(parts)[0]) && IsDigit(Dotted(parts)[|Dotted(parts)| - 1])
  {
    if |parts| > 1 {
      DottedEnds(parts[1..]);
    }
  }

  /** A run of the letter v. */
  function Vees(n: nat): (vees: string)
    ensures |vees| == n && forall i :: 0 <= i < n ==> vees[i] == 'v'
  {
    if n == 0 then "" else Vees(n - 1) + "v"
  }

  lemma {:induction false} LeftStrips(vees: string, s: string)
    requires (forall i :: 0 <= i < |vees| ==> vees[i] == 'v') && s != "" && s[0] != 'v'
    ensures StripLeft(vees + s, 'v') == s
  {
    if vees == "" {
      assert vees + s == s;
    } else {
      assert (vees + s)[1..] == vees[1..] + s;
      LeftStrips(vees[1..], s);
    }
  }

  lemma {:induction false} RightStrips(s: string, vees: string)
    requires (forall i :: 0 <= i < |vees| ==> vees[i] == 'v') && s != "" && s[|s| - 1] != 'v'
    ensures StripRight(s + vees, 'v') == s
  {
    if vees == "" {
      assert s + vees == s;
    } else {
      var n := |vees| - 1;
      assert (s + vees)[..|s + vees| - 1] == s + vees[..n];
      RightStrips(s, vees[..n]);
    }
  }

  /** The same with any run of v on either side. */
  lemma VeesAreIgnored(parts: seq<nat>, left: nat, right: nat)
    requires parts != []
    ensures ParseVersion(Some(Vees(left) + Dotted(parts) + Vees(right))) == parts
  {
    var s := Dotted(parts);
    DottedEnds(parts);
    DottedParses(parts);
    assert Vees(left) + s + Vees(right) == Vees(left) + (s + Vees(right));
    LeftStrips(Vees(left), s + Vees(right));
    RightStrips(s, Vees(right));
  }

  predicate Blank(s: string) {
    forall i :: 0 <= i < |s| ==> IsSpace(s[i])
  }

  lemma {:induction false} LeftTrims(left: string, s: string)
    requires Blank(left) && s != "" && !IsSpace(s[0])
    ensures TrimLeft(left + s) == s
  {
    if left == "" {
      assert left + s == s;
    } else {
      assert (left + s)[1..] == left[1..] + s;
      LeftTrims(left[1..], s);
    }
  }

  lemma {:induction false} RightTrims(s: string, right: string)
    requires Blank(right) && s != "" && !IsSpace(s[|s| - 1])
    ensures TrimRight(s + right) == s
  {
    if right == "" {
      assert s + right == s;
    } else {
      var n := |right| - 1;
      assert (s + right)[..|s + right| - 1] == s + right[..n];
      RightTrims(s, right[..n]);
    }
  }

  lemma Trims(left: string, s: string, right: string)
    requires Blank(left) && Blank(right) && s != "" && !IsSpace(s[0]) && !IsSpace(s[|s| - 1])
    ensures TrimRight(TrimLeft(left + s + right)) == s
  {
    assert left + s + right == left + (s + right);
    LeftTrims(left, s + right);
    RightTrims(s, right);
  }

  /** A text that starts with a sign or a digit and ends with a digit can be padded with blanks. */
  lemma BlanksAreIgnored(left: string, s: string, right: string)
    requires Blank(left) && Blank(right) && s != "" && !IsSpace(s[0]) && !IsSpace(s[|s| - 1])
    ensures ParseInt(left + s + right) == ParseInt(s)
  {
    Trims(left, s, right);
    Trims("", s, "");
    assert "" + s + "" == s;
  }

  lemma SignedDigits(sign: char, s: string)
    requires (sign == '+' || sign == '-') && s != "" && IsDigit(s[|s| - 1]) && ParseDigits(s).Some?
    ensures ParseInt([sign] + s).Some?
    ensures ParseInt([sign] + s).value == if sign == '-' then -ParseDigits(s).value else ParseDigits(s).value
  {
    var t := [sign] + s;
    assert TrimLeft(t) == t && TrimRight(t) == t;
    assert t[1..] == s;
  }

  lemma SignIsRead(n: nat)
    ensures ParseInt("+" + Decimal(n)).Some? && ParseInt("+" + Decimal(n)).value == n
    ensures ParseInt("-" + Decimal(n)).Some? && ParseInt("-" + Decimal(n)).value == -(n as int)
  {
    DecimalParses(n);
    SignedDigits('+', Decimal(n));
    SignedDigits('-', Decimal(n));
  }

  predicate Digits(s: string) {
    s != "" && forall i :: 0 <= i < |s| ==> IsDigit(s[i])
  }

  /** What one more digit makes of the digits before it. */
  function OneMore(before: Option<int>, d: char): Option<int>
    requires IsDigit(d)
  {
    if before.None? then None else Some(10 * before.value + DigitValue(d))
  }

  lemma LastDigit(s: string, d: char)
    requires s != "" && s[|s| - 1] != '_' && IsDigit(d)
    ensures ParseDigits(s + [d]) == OneMore(ParseDigits(s), d)
  {
    Unfolded(s + [d]);
    var t := s + [d];
    assert t[|t| - 1] == d && t[..|t| - 1] == s;
  }

  lemma Unfolded(t: string)
    requires |t| > 1 && IsDigit(t[|t| - 1])
    ensures var front := t[..|t| - 1];
            var digits := if front[|front| - 1] == '_' then front[..|front| - 1] else front;
            ParseDigits(t) == OneMore(ParseDigits(digits), t[|t| - 1])
  {
  }

  lemma LastDigitAfterUnderscore(s: string, d: char)
    requires s != "" && IsDigit(d)
    ensures ParseDigits(s + "_" + [d]) == OneMore(ParseDigits(s), d)
  {
    var t, front := s + "_" + [d], s + "_";
    assert t[|t| - 1] == d && t[..|t| - 1] == front;
    assert front[|front| - 1] == '_' && front[..|front| - 1] == s;
  }

  /** A single underscore between digits reads as nothing; one at either end is refused. */
  lemma {:induction false} UnderscoreIsIgnored(a: string, b: string)
    requires Digits(a) && Digits(b)
    ensures ParseDigits(a + "_" + b) == ParseDigits(a + b)
  {
    var n := |b| - 1;
    assert b == b[..n] + [b[n]];
    if n == 0 {
      assert b == [b[0]];
      LastDigit(a, b[0]);
      LastDigitAfterUnderscore(a, b[0]);
    } else {
      UnderscoreIsIgnored(a, b[..n]);
      assert a + "_" + b == (a + "_" + b[..n]) + [b[n]] && a + b == (a + b[..n]) + [b[n]];
      LastDigit(a + "_" + b[..n], b[n]);
      LastDigit(a + b[..n], b[n]);
    }
  }

  lemma {:induction false} UnderscoreAtEnd(b: string)
    requires Digits(b)
    ensures ParseDigits(b + "_").None? && ParseDigits("_" + b).None?
  {
    var s, n := "_" + b, |b| - 1;
    assert s[..|s| - 1] == "_" + b[..n];
    if n == 0 {
      assert "_" + b[..n] == "_";
      assert ParseDigits("").None?;
    } else {
      UnderscoreAtEnd(b[..n]);
    }
  }

  /** Spelling a version and reading it back is the identity, with or without a leading v. */
  lemma VersionRoundTrip(parts: seq<nat>)
    requires parts != []
    ensures ParseVersion(Some(Dotted(parts))) == parts
    ensures ParseVersion(Some("v" + Dotted(parts))) == parts
  {
    var s := Dotted(parts);
    DottedEnds(parts);
    DottedParses(parts);
    assert ("v" + s)[1..] == s;
    assert StripLeft(s, 'v') == s && StripLeft("v" + s, 'v') == s && StripRight(s, 'v') == s;
  }

  // ---------------------------------------------------------------- order

  /** The tuples agree on their first k parts, where `a` ends or has the smaller part. */
  predicate SmallerAt(a: seq<int>, b: seq<int>, k: nat) {
    k <= |a| && k < |b| && a[..k] == b[..k] && (k == |a| || a[k] < b[k])
  }

  /** The comparison is lexicographic: the first difference decides, and a proper prefix is smaller. */
  lemma {:induction false} LessIff(a: seq<int>, b: seq<int>)
    ensures Less(a, b) <==> exists k: nat :: SmallerAt(a, b, k)
  {
    if a == [] && b != [] {
      assert SmallerAt(a, b, 0);
    } else if a != [] && b != [] {
      LessIff(a[1..], b[1..]);
      if Less(a, b) {
        if a[0] < b[0] {
          assert SmallerAt(a, b, 0);
        } else {
          var k: nat :| SmallerAt(a[1..], b[1..], k);
          assert a[..k + 1] == [a[0]] + a[1..][..k] && b[..k + 1] == [b[0]] + b[1..][..k];
          assert SmallerAt(a, b, k + 1);
        }
      }
      if k: nat :| SmallerAt(a, b, k) {
        if k > 0 {
          assert a[..k][0] == b[..k][0];
          assert a[1..][..k - 1] == a[..k][1..] && b[1..][..k - 1] == b[..k][1..];
          assert SmallerAt(a[1..], b[1..], k - 1);
        }
      }
    }
  }

  lemma {:induction false} LessIrreflexive(a: seq<int>)
    ensures !Less(a, a)
  {
    if a != [] {
      LessIrreflexive(a[1..]);
    }
  }

  lemma {:induction false} LessTransitive(a: seq<int>, b: seq<int>, c: seq<int>)
    requires Less(a, b) && Less(b, c)
    ensures Less(a, c)
  {
    if a != [] && a[0] == b[0] && b[0] == c[0] {
      LessTransitive(a[1..], b[1..], c[1..]);
    }
  }

  lemma {:induction false} LessTotal(a: seq<int>, b: seq<int>)
    ensures Less(a, b) || a == b || Less(b, a)
  {
    if a != [] && b != [] && a[0] == b[0] {
      LessTotal(a[1..], b[1..]);
      assert a == [a[0]] + a[1..] && b == [b[0]] + b[1..];
    }
  }

  /** Precedence of plain three-part versions, as section 11 of SemVer 2.0.0 defines it. */
  predicate Precedes(major: nat, minor: nat, patch: nat, major': nat, minor': nat, patch': nat) {
    major < major' || (major == major' && (minor < minor' || (minor == minor' && patch < patch')))
  }

  /** On plain three-part spellings the comparison is SemVer precedence. */
  lemma ThreePartsAreSemVer(major: nat, minor: nat, patch: nat, v: string,
                            major': nat, minor': nat, patch': nat, w: string)
    requires v == Dotted([major, minor, patch]) || v == "v" + Dotted([major, minor, patch])
    requires w == Dotted([major', minor', patch']) || w == "v" + Dotted([major', minor', patch'])
    ensures Less(ParseVersion(Some(v)), ParseVersion(Some(w)))
       <==> Precedes(major, minor, patch, major', minor', patch')
  {
    VersionRoundTrip([major, minor, patch]);
    VersionRoundTrip([major', minor', patch']);
    LessByParts(major, [minor, patch], major', [minor', patch']);
    LessByParts(minor, [patch], minor', [patch']);
    LessByParts(patch, [], patch', []);
  }

  lemma LessByParts(x: int, xs: seq<int>, y: int, ys: seq<int>)
    ensures Less([x] + xs, [y] + ys) <==> x < y || (x == y && Less(xs, ys))
  {
    assert ([x] + xs)[1..] == xs && ([y] + ys)[1..] == ys;
  }

  lemma LatestParses()
    ensures ParseVersion(Some(LATEST)) == [2, 0, 0]
  {
    var parts: seq<nat> := [2, 0, 0];
    assert parts[1..] == [0, 0] && parts[1..][1..] == [0];
    assert Decimal(2) == "2" && Decimal(0) == "0";
    assert Dotted([0]) == "0" && Dotted([0, 0]) == "0.0" && Dotted(parts) == "2.0.0";
    VersionRoundTrip(parts);
  }

  lemma OfferedIffLess(version: Option<string>)
    ensures UpdateAvailable(version) <==> Less(ParseVersion(version), [2, 0, 0])
  {
    LatestParses();
  }

  /**
    An update is offered exactly when the major number is below 2, or the version is a
    bare "2" or "2.0", which as shorter tuples sort below 2.0.0.
   */
  lemma UpdateOfferedIff(parts: seq<nat>)
    requires parts != []
    ensures UpdateAvailable(Some(Dotted(parts))) <==> parts[0] < 2 || parts == [2] || parts == [2, 0]
  {
    OfferedIffLess(Some(Dotted(parts)));
    VersionRoundTrip(parts);
    LessByParts(parts[0], parts[1..], 2, [0, 0]);
    assert [parts[0]] + parts[1..] == parts && [2] + [0, 0] == [2, 0, 0];
    BelowZeros(parts[1..]);
    if parts[0] == 2 && parts[1..] == [] {
      assert parts == [2];
    } else if parts[0] == 2 && parts[1..] == [0] {
      assert parts == [2] + [0];
    }
  }

  lemma BelowZeros(rest: seq<nat>)
    ensures Less(rest, [0, 0]) <==> rest == [] || rest == [0]
  {
    if rest != [] {
      LessByParts(rest[0], rest[1..], 0, [0]);
      assert [rest[0]] + rest[1..] == rest;
      if rest[1..] != [] {
        LessByParts(rest[1], rest[1..][1..], 0, []);
        assert [rest[1]] + rest[1..][1..] == rest[1..];
      }
    }
  }

  /** A device that reports nothing, or something unreadable, is offered the update. */
  lemma UnreadableIsOffered(version: Option<string>)
    requires version.None? || version.value == ""
          || ParseAll(Split(StripRight(StripLeft(version.value, 'v'), 'v'), '.')).None?
    ensures ParseVersion(version) == [0, 0, 0]
    ensures UpdateAvailable(version)
  {
    OfferedIffLess(version);
    LessByParts(0, [0, 0], 2, [0, 0]);
    assert [0] + [0, 0] == [0, 0, 0] && [2] + [0, 0] == [2, 0, 0];
  }
}
