/** The string operations of the Rust standard library that the URL parsers are built from. */
module Text {
  import opened Options

  predicate StartsWith(s: string, prefix: string) { prefix <= s }

  predicate EndsWith(s: string, suffix: string) {
    |suffix| <= |s| && s[|s| - |suffix|..] == suffix
  }

  /** `strip_suffix(..).unwrap_or(self)`. */
  function StripSuffix(s: string, suffix: string): string {
    if EndsWith(s, suffix) then s[..|s| - |suffix|] else s
  }

  /** `split_once`: at the first occurrence. */
  function SplitOnce(s: string, c: char): Option<(string, string)> {
    if s == "" then None
    else if s[0] == c then Some(("", s[1..]))
    else match SplitOnce(s[1..], c)
      case None => None
      case Some((a, b)) => Some(([s[0]] + a, b))
  }

  /** `rsplit_once`: at the last occurrence. */
  function RSplitOnce(s: string, c: char): Option<(string, string)> {
    if s == "" then None
    else
      var n := |s| - 1;
      if s[n] == c then Some((s[..n], ""))
      else match RSplitOnce(s[..n], c)
        case None => None
        case Some((a, b)) => Some((a, b + [s[n]]))
  }

  lemma {:induction false} SplitAtFirst(a: string, c: char, b: string)
    requires c !in a
    ensures SplitOnce(a + [c] + b, c) == Some((a, b))
  {
    var s := a + [c] + b;
    if a == "" {
      assert s[1..] == b;
    } else {
      assert s[1..] == a[1..] + [c] + b;
      SplitAtFirst(a[1..], c, b);
      assert [s[0]] + a[1..] == a;
    }
  }

  lemma {:induction false} NothingToSplit(s: string, c: char)
    requires c !in s
    ensures SplitOnce(s, c) == None && RSplitOnce(s, c) == None
  {
    if s != "" {
      NothingToSplit(s[1..], c);
      NothingToSplit(s[..|s| - 1], c);
    }
  }

  lemma {:induction false} SplitAtLast(a: string, c: char, b: string)
    requires c !in b
    ensures RSplitOnce(a + [c] + b, c) == Some((a, b))
  {
    var s := a + [c] + b;
    if b == "" {
      assert s[..|s| - 1] == a;
    } else {
      var n := |b| - 1;
      assert s[..|s| - 1] == a + [c] + b[..n];
      SplitAtLast(a, c, b[..n]);
      assert b[..n] + [b[n]] == b;
    }
  }

  /** `trim_end_matches(c)`. */
  function TrimEndChar(s: string, c: char): (r: string)
    ensures r <= s && (r == "" || r[|r| - 1] != c)
  {
    if s != "" && s[|s| - 1] == c then TrimEndChar(s[..|s| - 1], c) else s
  }

  function TrimStartChar(s: string, c: char): (r: string)
    ensures r == "" || r[0] != c
  {
    if s != "" && s[0] == c then TrimStartChar(s[1..], c) else s
  }

  /** `trim_matches(c)`. */
  function TrimChar(s: string, c: char): string { TrimEndChar(TrimStartChar(s, c), c) }

  function Repeat(c: char, n: nat): (r: string)
    ensures |r| == n && forall i :: 0 <= i < n ==> r[i] == c
  {
    seq(n, _ => c)
  }

  lemma {:induction false} TrimEndRepeated(s: string, c: char, n: nat)
    requires s != "" && s[|s| - 1] != c
    ensures TrimEndChar(s + Repeat(c, n), c) == s
  {
    var t := s + Repeat(c, n);
    if n == 0 {
      assert t == s;
    } else {
      assert t[..|t| - 1] == s + Repeat(c, n - 1);
      TrimEndRepeated(s, c, n - 1);
    }
  }

  function LowerChar(c: char): char {
    if 'A' <= c <= 'Z' then (c as int + 32) as char else c
  }

  /** ASCII lower-casing. */
  function Lower(s: string): (r: string)
    ensures |r| == |s| && forall i :: 0 <= i < |s| ==> r[i] == LowerChar(s[i])
  {
    seq(|s|, i requires 0 <= i < |s| => LowerChar(s[i]))
  }

  /** One ASCII letter in either case, or the same character. */
  predicate SameLetter(a: char, b: char) {
    || a == b
    || ('A' <= a <= 'Z' && b as int == a as int + 32)
    || ('A' <= b <= 'Z' && a as int == b as int + 32)
  }

  /** Equal up to the case of ASCII letters. */
  predicate SameText(a: string, b: string) {
    |a| == |b| && forall i :: 0 <= i < |a| ==> SameLetter(a[i], b[i])
  }

  /** Lower-casing forgets the case of ASCII letters, and nothing else. */
  lemma LowerForgetsCase(a: string, b: string)
    ensures Lower(a) == Lower(b) <==> SameText(a, b)
  {
    if Lower(a) == Lower(b) {
      forall i | 0 <= i < |a|
        ensures SameLetter(a[i], b[i])
      {
        assert LowerChar(a[i]) == Lower(a)[i] == Lower(b)[i] == LowerChar(b[i]);
      }
    }
  }

  /** The Unicode `White_Space` characters. */
  predicate IsWhitespace(c: char) {
    var n := c as int;
    || 0x09 <= n <= 0x0D || n == 0x20 || n == 0x85 || n == 0xA0 || n == 0x1680
    || 0x2000 <= n <= 0x200A || n == 0x2028 || n == 0x2029 || n == 0x202F || n == 0x205F || n == 0x3000
  }

  /** Those characters, one by one. */
  lemma WhitespaceExactly(c: char)
    ensures IsWhitespace(c) <==>
      c in ['\t', '\n', '\U{0B}', '\U{0C}', '\r', ' ', '\U{85}', '\U{A0}', '\U{1680}', '\U{2000}', '\U{2001}', '\U{2002}', '\U{2003}',
            '\U{2004}', '\U{2005}', '\U{2006}', '\U{2007}', '\U{2008}', '\U{2009}', '\U{200A}', '\U{2028}', '\U{2029}', '\U{202F}',
            '\U{205F}', '\U{3000}']
  {
  }

  function TrimEnd(s: string): string {
    if s != "" && IsWhitespace(s[|s| - 1]) then TrimEnd(s[..|s| - 1]) else s
  }

  function TrimStart(s: string): string {
    if s != "" && IsWhitespace(s[0]) then TrimStart(s[1..]) else s
  }

  /** `trim`. */
  function Trim(s: string): string { TrimEnd(TrimStart(s)) }

  /** What follows the first `://`, or the whole text. */
  function AfterScheme(s: string): string {
    match FindScheme(s) case Some(rest) => rest case None => s
  }

  function FindScheme(s: string): Option<string> {
    if |s| < 3 then None
    else if s[..3] == "://" then Some(s[3..])
    else FindScheme(s[1..])
  }

  lemma {:induction false} SchemeEnds(scheme: string, rest: string)
    requires ':' !in scheme
    ensures FindScheme(scheme + "://" + rest) == Some(rest)
  {
    var s := scheme + "://" + rest;
    if scheme == "" {
      assert s[..3] == "://" && s[3..] == rest;
    } else {
      assert s[..3][0] == scheme[0];
      assert s[1..] == scheme[1..] + "://" + rest;
      SchemeEnds(scheme[1..], rest);
    }
  }

  /** The non-empty pieces between separators. */
  function Segments(s: string, c: char): (r: seq<string>)
    ensures forall i :: 0 <= i < |r| ==> r[i] != "" && c !in r[i]
    decreases |s|
  {
    match Piece(s, c)
    case (piece, rest) =>
      (if piece == "" then [] else [piece]) + (if rest == "" then [] else Segments(rest[1..], c))
  }

  /** The text up to the first separator, and the rest from that separator on. */
  function Piece(s: string, c: char): (r: (string, string))
    ensures s == r.0 + r.1 && c !in r.0 && (r.1 == "" || r.1[0] == c)
  {
    if s == "" || s[0] == c then ("", s)
    else
      var (piece, rest) := Piece(s[1..], c);
      ([s[0]] + piece, rest)
  }

  /** A separator outside the suffix decides where the suffix must lie. */
  lemma EndsWithAfter(a: string, c: char, b: string, suffix: string)
    requires c !in suffix
    ensures EndsWith(a + [c] + b, suffix) <==> EndsWith(b, suffix)
  {
    var s := a + [c] + b;
    if |suffix| <= |b| {
      assert s[|s| - |suffix|..] == b[|b| - |suffix|..];
    } else if |suffix| <= |s| {
      assert s[|s| - |suffix|..][|suffix| - |b| - 1] == c;
    }
  }

  // ---- What an operation leaves alone ------------------------------------------------------

  /** A separator that is already there decides; what is appended stays on the right. */
  lemma {:induction false} SplitOnceExtends(a: string, b: string, c: char)
    requires c in a
    ensures SplitOnce(a, c).Some?
    ensures SplitOnce(a + b, c) == Some((SplitOnce(a, c).value.0, SplitOnce(a, c).value.1 + b))
  {
    assert (a + b)[1..] == a[1..] + b;
    if a[0] != c {
      SplitOnceExtends(a[1..], b, c);
    }
  }

  lemma {:induction false} FindSchemeExtends(a: string, b: string)
    requires FindScheme(a).Some?
    ensures FindScheme(a + b) == Some(FindScheme(a).value + b)
  {
    assert (a + b)[1..] == a[1..] + b;
    if a[..3] == "://" {
      assert (a + b)[..3] == a[..3] && (a + b)[3..] == a[3..] + b;
    } else {
      assert (a + b)[..3] == a[..3];
      FindSchemeExtends(a[1..], b);
    }
  }

  lemma {:induction false} SchemeIsFound(scheme: string, rest: string)
    ensures FindScheme(scheme + "://" + rest).Some?
  {
    var s := scheme + "://" + rest;
    if scheme == "" {
      assert s[..3] == "://";
    } else {
      assert s[1..] == scheme[1..] + "://" + rest;
      SchemeIsFound(scheme[1..], rest);
    }
  }

  lemma {:induction false} PieceBeforeSeparator(a: string, c: char, b: string)
    ensures Piece(a + [c] + b, c).0 == Piece(a, c).0
    ensures c !in a ==> Piece(a, c) == (a, "") && Piece(a + [c] + b, c) == (a, [c] + b)
  {
    var s := a + [c] + b;
    if a == "" {
      assert s == [c] + b;
    } else if a[0] != c {
      assert s[1..] == a[1..] + [c] + b;
      PieceBeforeSeparator(a[1..], c, b);
      assert [a[0]] + a[1..] == a;
    }
  }

  lemma {:induction false} TrimStartStops(a: string, c: char, b: string)
    requires !IsWhitespace(c)
    ensures TrimStart(a + [c] + b) == TrimStart(a) + [c] + b
  {
    var s := a + [c] + b;
    if a != "" && IsWhitespace(a[0]) {
      assert s[1..] == a[1..] + [c] + b;
      TrimStartStops(a[1..], c, b);
    }
  }

  lemma {:induction false} TrimEndStops(a: string, c: char, b: string)
    requires !IsWhitespace(c)
    ensures TrimEnd(a + [c] + b) == a + [c] + TrimEnd(b)
  {
    var s := a + [c] + b;
    if b != "" && IsWhitespace(b[|b| - 1]) {
      assert s[..|s| - 1] == a + [c] + b[..|b| - 1];
      TrimEndStops(a, c, b[..|b| - 1]);
    }
  }

  lemma {:induction false} NothingToTrim(s: string)
    requires s != "" && !IsWhitespace(s[0]) && !IsWhitespace(s[|s| - 1])
    ensures Trim(s) == s
  {
  }

  /** `split_once` on a text separator: at its first occurrence. */
  function SplitOnceStr(s: string, sep: string): Option<(string, string)>
    requires sep != ""
    decreases |s|
  {
    if |s| < |sep| then None
    else if s[..|sep|] == sep then Some(("", s[|sep|..]))
    else match SplitOnceStr(s[1..], sep)
      case None => None
      case Some((a, b)) => Some(([s[0]] + a, b))
  }

  /** `sep` occurs nowhere in `s`. */
  predicate Free(s: string, sep: string)
    decreases |s|
  {
    |s| < |sep| || (s[..|sep|] != sep && (s == "" || Free(s[1..], sep)))
  }

  /** A split fails exactly when there is nothing to split at. */
  lemma {:induction false} NothingToSplitStr(s: string, sep: string)
    requires sep != ""
    ensures SplitOnceStr(s, sep).None? <==> Free(s, sep)
  {
    if |s| >= |sep| {
      NothingToSplitStr(s[1..], sep);
    }
  }

  /** `sep` does not start at position `i` of `s`. */
  predicate Clear(s: string, sep: string, i: nat) {
    i + |sep| <= |s| ==> s[i..i + |sep|] != sep
  }

  lemma {:induction false} FreeMeans(s: string, sep: string)
    requires sep != ""
    ensures Free(s, sep) <==> forall i: nat :: Clear(s, sep, i)
  {
    if |s| >= |sep| {
      FreeMeans(s[1..], sep);
      forall i: nat
        ensures Clear(s[1..], sep, i) <==> Clear(s, sep, i + 1)
      {
        if i + |sep| <= |s| - 1 {
          assert s[1..][i..i + |sep|] == s[i + 1..i + 1 + |sep|];
        }
      }
      assert Clear(s, sep, 0) <==> s[..|sep|] != sep;
      if Free(s, sep) {
        forall i: nat
          ensures Clear(s, sep, i)
        {
          assert i > 0 ==> Clear(s[1..], sep, i - 1);
        }
      }
    }
  }

  // ---- Segments ----------------------------------------------------------------------------

  lemma SegmentsOfOne(a: string)
    requires a != "" && '/' !in a
    ensures Segments(a, '/') == [a]
  {
    PieceBeforeSeparator(a, '/', "");
  }

  lemma SegmentsOfMore(a: string, rest: string)
    requires a != "" && '/' !in a
    ensures Segments(a + ['/'] + rest, '/') == [a] + Segments(rest, '/')
  {
    PieceBeforeSeparator(a, '/', rest);
    assert Piece(a + ['/'] + rest, '/') == (a, ['/'] + rest);
    assert (['/'] + rest)[1..] == rest;
  }

  /** Leading separators do not count. */
  lemma {:induction false} SegmentsSkip(k: nat, t: string)
    ensures Segments(Repeat('/', k) + t, '/') == Segments(t, '/')
  {
    var s := Repeat('/', k) + t;
    if k == 0 {
      assert s == t;
    } else {
      assert s[1..] == Repeat('/', k - 1) + t;
      SegmentsSkip(k - 1, t);
      assert Piece(s, '/') == ("", s);
      assert [] + Segments(s[1..], '/') == Segments(s[1..], '/');
    }
  }

  /** Two segments, however many separators stand between them. */
  lemma SegmentsOfTwo(a: string, k: nat, b: string)
    requires a != "" && '/' !in a && b != "" && '/' !in b && k >= 1
    ensures Segments(a + Repeat('/', k) + b, '/') == [a, b]
  {
    var rest := Repeat('/', k - 1) + b;
    assert a + Repeat('/', k) + b == a + ['/'] + rest;
    SegmentsOfMore(a, rest);
    SegmentsSkip(k - 1, b);
    SegmentsOfOne(b);
  }

  /** The separators a text starts with, and the rest. */
  lemma {:induction false} LeadingSlashes(s: string) returns (k: nat, t: string)
    ensures s == Repeat('/', k) + t && (t == "" || t[0] != '/')
    ensures s != "" && s[|s| - 1] != '/' ==> t != "" && t[|t| - 1] == s[|s| - 1]
  {
    if s == "" || s[0] != '/' {
      k, t := 0, s;
    } else {
      k, t := LeadingSlashes(s[1..]);
      k := k + 1;
      assert s == ['/'] + s[1..];
    }
  }

  /** A text that does not end in a separator has a segment. */
  lemma HasSegment(s: string)
    requires s != "" && s[|s| - 1] != '/'
    ensures Segments(s, '/') != []
  {
    var k, t := LeadingSlashes(s);
    SegmentsSkip(k, t);
    assert Piece(t, '/').0 != "";
  }

  /** A text of exactly one segment that neither starts nor ends with a separator is that segment. */
  lemma SoleSegment(t: string)
    requires t != "" && t[0] != '/' && t[|t| - 1] != '/' && |Segments(t, '/')| == 1
    ensures '/' !in t
  {
    var (piece, rest) := Piece(t, '/');
    assert t == piece + rest && piece != "";
    if rest != "" {
      assert t[|t| - 1] == rest[|rest| - 1];
      HasSegment(rest[1..]);
    }
  }

  /** And a text of exactly two is those two with separators between them. */
  lemma TwoSegments(s: string) returns (a: string, k: nat, b: string)
    requires s != "" && s[0] != '/' && s[|s| - 1] != '/' && |Segments(s, '/')| == 2
    ensures a != "" && '/' !in a && b != "" && '/' !in b && k >= 1 && s == a + Repeat('/', k) + b
  {
    hide Segments, Piece, Repeat;
    var rest := FirstSegment(s);
    a := Piece(s, '/').0;
    k, b := LeadingSlashes(rest);
    SegmentsSkip(k, b);
    SoleSegment(b);
    OneMoreSlash(a, k, b);
    k := k + 1;
  }

  lemma OneMoreSlash(a: string, k: nat, b: string)
    ensures a + ['/'] + (Repeat('/', k) + b) == a + Repeat('/', k + 1) + b
  {
    assert Repeat('/', k + 1) == ['/'] + Repeat('/', k);
  }

  /** Taking off the first of several segments. */
  lemma FirstSegment(s: string) returns (rest: string)
    requires s != "" && s[0] != '/' && s[|s| - 1] != '/' && |Segments(s, '/')| >= 2
    ensures Piece(s, '/').0 != "" && s == Piece(s, '/').0 + ['/'] + rest
    ensures rest != "" && rest[|rest| - 1] != '/' && |Segments(rest, '/')| == |Segments(s, '/')| - 1
  {
    var (piece, tail) := Piece(s, '/');
    rest := tail[1..];
    assert tail == ['/'] + rest;
    assert s[|s| - 1] == tail[|tail| - 1];
  }
}
