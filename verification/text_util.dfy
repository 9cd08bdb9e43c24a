/**
 * String helpers the template parser relies on: character classes, prefix and
 * substring tests, search, splitting and trimming, over strings as sequences
 * of characters. VStr, the parser's string view, is here too: the source's
 * `util` module owns it and it is not part of this model beyond what is below.
 */
module TextUtil {
  import opened Wrappers

  /** `char::is_ascii_whitespace`: space, tab, line feed, form feed, carriage return. */
  predicate IsAsciiWhitespace(c: char)
  {
    c == ' ' || c == '\t' || c == '\n' || c == '\U{000C}' || c == '\r'
  }

  /** The characters with the Unicode White_Space property, which `str::trim` removes. */
  const UnicodeWhitespace: set<char> := {
    '\t', '\n', '\U{000B}', '\U{000C}', '\r', ' ', '\U{0085}', '\U{00A0}', '\U{1680}',
    '\U{2000}', '\U{2001}', '\U{2002}', '\U{2003}', '\U{2004}', '\U{2005}', '\U{2006}',
    '\U{2007}', '\U{2008}', '\U{2009}', '\U{200A}', '\U{2028}', '\U{2029}', '\U{202F}',
    '\U{205F}', '\U{3000}'}

  /** `char::is_whitespace`. */
  predicate IsUnicodeWhitespace(c: char)
  {
    c in UnicodeWhitespace
  }

  predicate StartsWith(s: string, prefix: string)
  {
    |prefix| <= |s| && s[..|prefix|] == prefix
  }

  lemma FirstCharDiffers(s: string, prefix: string)
    requires |s| > 0 && |prefix| > 0 && s[0] != prefix[0]
    ensures !StartsWith(s, prefix)
  {
    if |prefix| <= |s| {
      assert s[..|prefix|][0] == s[0];
    }
  }

  /** `str::contains` for a string pattern. */
  predicate Contains(s: string, sub: string)
    decreases |s|
  {
    StartsWith(s, sub) || (|s| > 0 && Contains(s[1..], sub))
  }

  /** Index of the first character of `s` in `cs`, or `|s|` when there is none. */
  function IndexOfAny(s: string, cs: set<char>): (r: nat)
    ensures r <= |s|
    ensures forall k :: 0 <= k < r ==> s[k] !in cs
    ensures r < |s| ==> s[r] in cs
  {
    if |s| == 0 then 0
    else if s[0] in cs then 0
    else 1 + IndexOfAny(s[1..], cs)
  }

  lemma {:induction false} IndexOfAnyConcat(a: string, b: string, cs: set<char>)
    requires forall k :: 0 <= k < |a| ==> a[k] !in cs
    ensures IndexOfAny(a + b, cs) == |a| + IndexOfAny(b, cs)
  {
    if |a| > 0 {
      assert (a + b)[0] == a[0];
      assert (a + b)[1..] == a[1..] + b;
      assert forall k :: 0 <= k < |a[1..]| ==> a[1..][k] == a[k + 1];
      IndexOfAnyConcat(a[1..], b, cs);
      assert IndexOfAny(a + b, cs) == 1 + IndexOfAny((a + b)[1..], cs);
    } else {
      assert a + b == b;
    }
  }

  function AsciiLower(c: char): char
  {
    if 'A' <= c <= 'Z' then (c as int + 32) as char else c
  }

  /**
   * `str::to_ascii_lowercase`: no upper-case ASCII letter is left, and a
   * character changes exactly when it is one.
   */
  function AsciiLowercase(s: string): (r: string)
    ensures |r| == |s| && forall k :: 0 <= k < |s| ==> r[k] == AsciiLower(s[k])
    ensures forall k :: 0 <= k < |r| ==> !('A' <= r[k] <= 'Z')
    ensures forall k :: 0 <= k < |s| ==> (r[k] != s[k] <==> 'A' <= s[k] <= 'Z')
  {
    seq(|s|, k requires 0 <= k < |s| => AsciiLower(s[k]))
  }

  /** Lower-casing twice is lower-casing once. */
  lemma AsciiLowercaseIdempotent(s: string)
    ensures AsciiLowercase(AsciiLowercase(s)) == AsciiLowercase(s)
  {
    var r := AsciiLowercase(s);
    assert forall k :: 0 <= k < |r| ==> AsciiLowercase(r)[k] == r[k];
  }

  /** The number of bytes UTF-8 takes to encode `c`. */
  function Utf8Len(c: char): (n: nat)
    ensures 1 <= n <= 4 && (n == 1 <==> c as int < 0x80)
  {
    if c as int < 0x80 then 1 else if c as int < 0x800 then 2 else if c as int < 0x10000 then 3 else 4
  }

  /** The number of bytes UTF-8 takes to encode `s`: Rust's `str::len`. */
  function Utf8Size(s: string): nat
  {
    if s == [] then 0 else Utf8Len(s[0]) + Utf8Size(s[1..])
  }

  /**
   * How many leading characters of `s` fill exactly its first `b` bytes, or
   * None when byte `b` falls inside a character or past the end; Rust's
   * `&s[..b]` panics in exactly that case.
   */
  function CharsInBytes(s: string, b: nat): (r: Option<nat>)
    ensures r.Some? ==> r.value <= |s|
    decreases b
  {
    if b == 0 then Some(0)
    else if s == [] || Utf8Len(s[0]) > b then None
    else
      match CharsInBytes(s[1..], b - Utf8Len(s[0]))
      case None => None
      case Some(n) => Some(n + 1)
  }

  /** The characters CharsInBytes counts are encoded in exactly `b` bytes. */
  lemma {:induction false} CharsInBytesSize(s: string, b: nat)
    ensures CharsInBytes(s, b).Some? ==> Utf8Size(s[..CharsInBytes(s, b).value]) == b
    decreases b
  {
    var r := CharsInBytes(s, b);
    if b > 0 && r.Some? {
      var t := s[1..];
      CharsInBytesSize(t, b - Utf8Len(s[0]));
      assert s[..r.value][1..] == t[..r.value - 1];
    }
  }

  /** Over ASCII text bytes and characters coincide. */
  lemma {:induction false} CharsInBytesAscii(s: string, b: nat)
    requires b <= |s| && forall k :: 0 <= k < b ==> s[k] as int < 0x80
    ensures CharsInBytes(s, b) == Some(b)
    decreases b
  {
    if b > 0 { CharsInBytesAscii(s[1..], b - 1); }
  }

  /** A string takes at least one byte per character, and exactly one each iff it is ASCII. */
  lemma {:induction false} Utf8SizeAtLeast(s: string)
    ensures Utf8Size(s) >= |s|
    ensures Utf8Size(s) == |s| <==> forall k :: 0 <= k < |s| ==> s[k] as int < 0x80
  {
    if s != [] {
      Utf8SizeAtLeast(s[1..]);
      assert forall k :: 1 <= k < |s| ==> s[k] == s[1..][k - 1];
    }
  }

  /** `str::eq_ignore_ascii_case`. */
  predicate EqIgnoreAsciiCase(a: string, b: string)
  {
    |a| == |b| && forall k :: 0 <= k < |a| ==> AsciiLower(a[k]) == AsciiLower(b[k])
  }

  lemma EqIgnoreAsciiCaseIsLowercaseEquality(a: string, b: string)
    ensures EqIgnoreAsciiCase(a, b) <==> AsciiLowercase(a) == AsciiLowercase(b)
  {
    if AsciiLowercase(a) == AsciiLowercase(b) {
      assert |a| == |b|;
      forall k | 0 <= k < |a| ensures AsciiLower(a[k]) == AsciiLower(b[k]) {
        assert AsciiLowercase(a)[k] == AsciiLowercase(b)[k];
      }
    }
  }

  /** `str::split` on one character: the pieces between the separators, empty ones included. */
  function Split(s: string, sep: char): (r: seq<string>)
    ensures |r| >= 1
    ensures forall k :: 0 <= k < |r| ==> sep !in r[k]
    decreases |s|
  {
    var i := IndexOfAny(s, {sep});
    if i == |s| then [s]
    else [s[..i]] + Split(s[i + 1..], sep)
  }

  /** The inverse of Split: the pieces with one separator between neighbours. */
  function Join(pieces: seq<string>, sep: char): string
    requires |pieces| >= 1
  {
    if |pieces| == 1 then pieces[0]
    else pieces[0] + [sep] + Join(pieces[1..], sep)
  }

  lemma SplitWithoutSep(s: string, sep: char)
    requires sep !in s
    ensures Split(s, sep) == [s]
  {
    assert IndexOfAny(s, {sep}) == |s|;
  }

  lemma SplitLeadingSep(s: string, sep: char)
    ensures Split([sep] + s, sep) == [""] + Split(s, sep)
  {
    assert IndexOfAny([sep] + s, {sep}) == 0;
    assert ([sep] + s)[1..] == s;
  }

  lemma {:induction false} JoinSplit(s: string, sep: char)
    ensures Join(Split(s, sep), sep) == s
    decreases |s|
  {
    var i := IndexOfAny(s, {sep});
    if i < |s| {
      var rest := Split(s[i + 1..], sep);
      assert Split(s, sep) == [s[..i]] + rest;
      assert ([s[..i]] + rest)[1..] == rest;
      JoinSplit(s[i + 1..], sep);
      assert Join(Split(s, sep), sep) == s[..i] + [sep] + s[i + 1..];
      assert s == s[..i] + [sep] + s[i + 1..];
    } else {
      assert Split(s, sep) == [s];
    }
  }

  lemma {:induction false} SplitJoin(pieces: seq<string>, sep: char)
    requires |pieces| >= 1
    requires forall k :: 0 <= k < |pieces| ==> sep !in pieces[k]
    ensures Split(Join(pieces, sep), sep) == pieces
  {
    if |pieces| > 1 {
      var p, rest := pieces[0], Join(pieces[1..], sep);
      var s := p + ([sep] + rest);
      assert Join(pieces, sep) == s;
      assert IndexOfAny([sep] + rest, {sep}) == 0;
      IndexOfAnyConcat(p, [sep] + rest, {sep});
      assert s[..|p|] == p;
      assert s[|p| + 1..] == rest;
      assert Split(s, sep) == [p] + Split(rest, sep);
      SplitJoin(pieces[1..], sep);
      assert pieces == [p] + pieces[1..];
    }
  }

  /** How many whitespace characters `s` starts with. */
  function LeadingWhitespace(s: string): (n: nat)
    ensures n <= |s|
    ensures forall k :: 0 <= k < n ==> IsUnicodeWhitespace(s[k])
    ensures n == |s| || !IsUnicodeWhitespace(s[n])
  {
    if |s| > 0 && IsUnicodeWhitespace(s[0]) then 1 + LeadingWhitespace(s[1..]) else 0
  }

  /** How many whitespace characters `s` ends with. */
  function TrailingWhitespace(s: string): (n: nat)
    ensures n <= |s|
    ensures forall k :: |s| - n <= k < |s| ==> IsUnicodeWhitespace(s[k])
    ensures n == |s| || !IsUnicodeWhitespace(s[|s| - n - 1])
  {
    if |s| > 0 && IsUnicodeWhitespace(s[|s| - 1]) then 1 + TrailingWhitespace(s[..|s| - 1]) else 0
  }

  /** `str::trim`. */
  function Trim(s: string): string
  {
    var rest := s[LeadingWhitespace(s)..];
    rest[..|rest| - TrailingWhitespace(rest)]
  }

  predicate AllUnicodeWhitespace(s: string)
  {
    forall k :: 0 <= k < |s| ==> IsUnicodeWhitespace(s[k])
  }

  /**
   * Trim removes whitespace on both sides and nothing else: the result sits in
   * `s` after the leading whitespace, only whitespace follows it, and it
   * neither starts nor ends with whitespace.
   */
  lemma TrimSurrounds(s: string)
    ensures var t, i := Trim(s), LeadingWhitespace(s);
      i + |t| <= |s| && s[i..i + |t|] == t &&
      AllUnicodeWhitespace(s[..i]) && AllUnicodeWhitespace(s[i + |t|..]) &&
      (t == [] || (!IsUnicodeWhitespace(t[0]) && !IsUnicodeWhitespace(t[|t| - 1])))
  {
    var i := LeadingWhitespace(s);
    var rest := s[i..];
    var t := Trim(s);
    assert t == rest[..|rest| - TrailingWhitespace(rest)];
    assert s[i..i + |t|] == t;
    LeadingWhitespaceIsWhitespace(s);
    TrimmedTailIsWhitespace(s);
    TrimmedEnds(s);
  }

  lemma LeadingWhitespaceIsWhitespace(s: string)
    ensures AllUnicodeWhitespace(s[..LeadingWhitespace(s)])
  {
    var head := s[..LeadingWhitespace(s)];
    forall k | 0 <= k < |head| ensures IsUnicodeWhitespace(head[k]) {
      assert head[k] == s[k];
    }
  }

  lemma TrimmedTailIsWhitespace(s: string)
    ensures AllUnicodeWhitespace(s[LeadingWhitespace(s) + |Trim(s)|..])
  {
    var i := LeadingWhitespace(s);
    var rest := s[i..];
    var j := |rest| - TrailingWhitespace(rest);
    assert Trim(s) == rest[..j];
    var tail := s[i + j..];
    forall k | 0 <= k < |tail| ensures IsUnicodeWhitespace(tail[k]) {
      assert tail[k] == rest[j + k];
    }
  }

  lemma TrimmedEnds(s: string)
    ensures var t := Trim(s); t == [] || (!IsUnicodeWhitespace(t[0]) && !IsUnicodeWhitespace(t[|t| - 1]))
  {
    var rest := s[LeadingWhitespace(s)..];
    var j := |rest| - TrailingWhitespace(rest);
    var t := rest[..j];
    assert Trim(s) == t;
    if t != [] {
      assert t[0] == rest[0];
      assert t[|t| - 1] == rest[j - 1];
    }
  }

  /** The operations a VStr records to apply when it is finally rendered. */
  datatype StrOp = CompressWhitespace | DecodeAttr

  /** A string view with pending operations; its text, for every test, is `raw`. */
  datatype VStr = VStr(raw: string, ops: set<StrOp>)
}
