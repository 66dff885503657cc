/**
 The placeholder rewrite for PostgreSQL (`src/db/mod.rs`): `?N` becomes `$N`. The runtime
 variant looks for a place to rewrite in the bytes of the text; the rewrite works on its
 characters.
 */
module Placeholders {
  import opened MachineTypes
  import Utf8

  predicate IsDigit(c: char) { '0' <= c <= '9' }

  /** The character at `i` is a `?` directly before an ASCII digit. */
  predicate IsPlaceholder(s: string, i: nat) {
    i + 1 < |s| && s[i] == '?' && IsDigit(s[i + 1])
  }

  function Rewritten(s: string): (r: string)
    ensures |r| == |s|
  {
    seq(|s|, i requires 0 <= i < |s| => if IsPlaceholder(s, i) then '$' else s[i])
  }

  method RewritePlaceholders(s: string) returns (result: string)
    ensures result == Rewritten(s)
  {
    result := "";
    var n := 0;
    while n < |s|
      invariant 0 <= n <= |s| && result == Rewritten(s)[..n]
    {
      var c := s[n];
      n := n + 1;
      if c == '?' && n < |s| && IsDigit(s[n]) {
        result := result + ['$'];
      } else {
        result := result + [c];
      }
    }
    assert Rewritten(s)[..|s|] == Rewritten(s);
  }

  /** The byte scan: two neighbouring bytes `?` and an ASCII digit. */
  predicate NeedsTranslate(b: bytes) {
    exists i :: 0 <= i < |b| - 1 && b[i] == 63 && 48 <= b[i + 1] <= 57
  }

  /** The runtime translation: the text itself, or its rewrite. */
  method TranslateSql(s: string) returns (result: string)
    ensures result == Rewritten(s)
  {
    if NeedsTranslate(Utf8.Encode(s)) {
      result := RewritePlaceholders(s);
    } else {
      ScanFindsPlaceholders(s);
      assert Rewritten(s) == s;
      result := s;
    }
  }

  /** A byte below 0x80 at the head of an encoding is a whole character. */
  lemma HeadByte(s: string)
    requires s != ""
    ensures var b := Utf8.Encode(s);
            && (s[0] as int < 0x80 ==> b == [s[0] as int as byte] + Utf8.Encode(s[1..]))
            && (s[0] as int >= 0x80 ==> b[0] as int >= 0x80)
  {
  }

  /** The byte scan fires exactly when the rewrite would change something. */
  lemma {:induction false} ScanFindsPlaceholders(s: string)
    ensures NeedsTranslate(Utf8.Encode(s)) <==> exists i :: 0 <= i < |s| && IsPlaceholder(s, i)
  {
    if s != "" {
      var rest := s[1..];
      ScanFindsPlaceholders(rest);
      ScanStep(s);
      assert forall i :: 0 <= i < |rest| && IsPlaceholder(rest, i) ==> IsPlaceholder(s, i + 1);
      assert forall i :: 1 <= i < |s| && IsPlaceholder(s, i) ==> IsPlaceholder(rest, i - 1);
    }
  }

  /** A hit at the boundary of two texts: the last byte of one, the first of the other. */
  predicate HitAcross(head: bytes, rest: bytes) {
    head != [] && rest != [] && head[|head| - 1] == 63 && 48 <= rest[0] <= 57
  }

  /** A hit of the scan lies in the first text, in the second, or across their boundary. */
  lemma HitInConcat(head: bytes, rest: bytes)
    ensures NeedsTranslate(head + rest) <==> NeedsTranslate(head) || NeedsTranslate(rest) || HitAcross(head, rest)
  {
    var b := head + rest;
    if NeedsTranslate(head) {
      var i :| 0 <= i < |head| - 1 && head[i] == 63 && 48 <= head[i + 1] <= 57;
      assert b[i] == 63 && 48 <= b[i + 1] <= 57;
    }
    if NeedsTranslate(rest) {
      var i :| 0 <= i < |rest| - 1 && rest[i] == 63 && 48 <= rest[i + 1] <= 57;
      assert b[|head| + i] == 63 && 48 <= b[|head| + i + 1] <= 57;
    }
    if HitAcross(head, rest) {
      assert b[|head| - 1] == 63 && 48 <= b[|head| - 1 + 1] <= 57;
    }
    if NeedsTranslate(b) {
      HitIsSomewhere(head, rest);
    }
  }

  lemma HitIsSomewhere(head: bytes, rest: bytes)
    requires NeedsTranslate(head + rest)
    ensures NeedsTranslate(head) || NeedsTranslate(rest) || HitAcross(head, rest)
  {
    var b := head + rest;
    var i :| 0 <= i < |b| - 1 && b[i] == 63 && 48 <= b[i + 1] <= 57;
    if i < |head| - 1 {
      assert head[i] == 63 && 48 <= head[i + 1] <= 57;
    } else if i >= |head| {
      assert rest[i - |head|] == 63 && 48 <= rest[i - |head| + 1] <= 57;
    }
  }

  /** The first character adds a hit to the scan exactly when it is a placeholder. */
  lemma ScanStep(s: string)
    requires s != ""
    ensures NeedsTranslate(Utf8.Encode(s)) <==> IsPlaceholder(s, 0) || NeedsTranslate(Utf8.Encode(s[1..]))
  {
    var head, rest := Utf8.EncodeChar(s[0]), Utf8.Encode(s[1..]);
    assert Utf8.Encode(s) == head + rest;
    hide Utf8.EncodeChar, NeedsTranslate;
    HitInConcat(head, rest);
    NoHitInChar(head);
    if |s| > 1 {
      HeadByte(s[1..]);
    }
  }

  lemma NoHitInChar(b: bytes)
    requires |b| == 1 || forall i :: 0 <= i < |b| ==> b[i] as int >= 0x80
    ensures !NeedsTranslate(b)
  {
  }

  /** The rewrite changes exactly the placeholders, and a second rewrite finds none. */
  lemma {:induction false} RewriteIsIdempotent(s: string)
    ensures |Rewritten(s)| == |s|
    ensures forall i :: 0 <= i < |s| ==>
      Rewritten(s)[i] == if i + 1 < |s| && s[i] == '?' && '0' <= s[i + 1] <= '9' then '$' else s[i]
    ensures Rewritten(Rewritten(s)) == Rewritten(s)
  {
    var r := Rewritten(s);
    forall i | 0 <= i < |r|
      ensures !IsPlaceholder(r, i)
    {
      if i + 1 < |r| && r[i] == '?' {
        assert s[i] == '?' && !IsDigit(s[i + 1]);
        assert r[i + 1] == s[i + 1] || r[i + 1] == '$';
      }
    }
  }
}
