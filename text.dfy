/** The three string operations the tool applies to user input: Python's
    `str.strip()`, `str.lower()` (restricted to ASCII letters) and the
    substring test `q in text`. */
module Text {

  /** The characters Python's `str.isspace` accepts, so the ones `strip()` removes. */
  predicate IsSpace(c: char)
  {
    c == ' ' || c == '\t' || c == '\n' || c == '\r' || c == '\U{0b}' || c == '\U{0c}' ||
    ('\U{1c}' <= c <= '\U{1f}') || c == '\U{85}' || c == '\U{a0}' || c == '\U{1680}' ||
    ('\U{2000}' <= c <= '\U{200a}') || c == '\U{2028}' || c == '\U{2029}' ||
    c == '\U{202f}' || c == '\U{205f}' || c == '\U{3000}'
  }

  predicate AllSpace(s: string)
  {
    forall i :: 0 <= i < |s| ==> IsSpace(s[i])
  }

  /** `s.lstrip()`. */
  function StripLeading(s: string): string
  {
    if s != [] && IsSpace(s[0]) then StripLeading(s[1..]) else s
  }

  /** `lstrip()` drops a whitespace prefix and stops at the first other
      character. */
  lemma {:induction false} StripLeadingSpec(s: string)
    ensures var r := StripLeading(s);
            |r| <= |s| && r == s[|s| - |r|..] && AllSpace(s[..|s| - |r|]) &&
            (r != [] ==> !IsSpace(r[0]))
  {
    if s != [] && IsSpace(s[0]) {
      StripLeadingSpec(s[1..]);
      var r := StripLeading(s);
      assert s[1..][|s| - 1 - |r|..] == s[|s| - |r|..];
      var lead, rest := s[..|s| - |r|], s[1..][..|s| - 1 - |r|];
      forall i | 0 <= i < |lead| ensures IsSpace(lead[i]) {
        if 0 < i {
          assert lead[i] == rest[i - 1];
        }
      }
    }
  }

  /** `s.rstrip()`. */
  function StripTrailing(s: string): string
  {
    if s != [] && IsSpace(s[|s| - 1]) then StripTrailing(s[..|s| - 1]) else s
  }

  /** `rstrip()` drops a whitespace suffix and stops at the last other
      character. */
  lemma {:induction false} StripTrailingSpec(s: string)
    ensures var r := StripTrailing(s);
            |r| <= |s| && r == s[..|r|] && AllSpace(s[|r|..]) &&
            (r != [] ==> !IsSpace(r[|r| - 1]))
  {
    if s != [] && IsSpace(s[|s| - 1]) {
      StripTrailingSpec(s[..|s| - 1]);
      var r := StripTrailing(s);
      assert s[..|s| - 1][..|r|] == s[..|r|];
      var trail, rest := s[|r|..], s[..|s| - 1][|r|..];
      forall i | 0 <= i < |trail| ensures IsSpace(trail[i]) {
        if i < |rest| {
          assert trail[i] == rest[i];
        }
      }
    }
  }

  /** `s.strip()`: `s` without its leading and trailing whitespace. */
  function Strip(s: string): string
  {
    StripTrailing(StripLeading(s))
  }

  /** `strip()` removes whitespace at both ends and nothing else: `s` is some
      whitespace, then the result, then some whitespace, and the result neither
      starts nor ends with whitespace. */
  lemma StripDecomposes(s: string) returns (lead: string, trail: string)
    ensures s == lead + Strip(s) + trail
    ensures AllSpace(lead) && AllSpace(trail)
    ensures Strip(s) != [] ==> !IsSpace(Strip(s)[0]) && !IsSpace(Strip(s)[|Strip(s)| - 1])
  {
    var m := StripLeading(s);
    var r := StripTrailing(m);
    StripLeadingSpec(s);
    StripTrailingSpec(m);
    lead := s[..|s| - |m|];
    trail := m[|r|..];
    Concat3(s, |s| - |m|, |s| - |m| + |r|);
    assert s[|s| - |m|..][..|r|] == s[|s| - |m|..|s| - |m| + |r|];
    assert s[|s| - |m|..][|r|..] == s[|s| - |m| + |r|..];
    StripEndsNotSpace(s);
  }

  lemma Concat3(s: string, a: int, b: int)
    requires 0 <= a <= b <= |s|
    ensures s == s[..a] + s[a..b] + s[b..]
  {
  }

  lemma StripEndsNotSpace(s: string)
    ensures Strip(s) != [] ==> !IsSpace(Strip(s)[0]) && !IsSpace(Strip(s)[|Strip(s)| - 1])
  {
    var m := StripLeading(s);
    var r := StripTrailing(m);
    StripLeadingSpec(s);
    StripTrailingSpec(m);
    if r != [] {
      assert r[0] == m[0];
    }
  }

  /** A title is empty after stripping exactly when it consists of whitespace only. */
  lemma {:induction false} StripEmptyIffBlank(s: string)
    ensures Strip(s) == [] <==> AllSpace(s)
  {
    var lead, trail := StripDecomposes(s);
    if Strip(s) == [] {
      assert s == lead + trail;
      forall i | 0 <= i < |s| ensures IsSpace(s[i]) {
        if i < |lead| { assert s[i] == lead[i]; } else { assert s[i] == trail[i - |lead|]; }
      }
    } else {
      var r := Strip(s);
      assert s[|lead|] == r[0];
    }
  }

  /** ASCII lower-casing of one character. */
  function LowerChar(c: char): char
  {
    if 'A' <= c <= 'Z' then (c as int + 32) as char else c
  }

  /** `s.lower()` on ASCII letters; every other character is kept. */
  function Lower(s: string): (r: string)
    ensures |r| == |s|
  {
    seq(|s|, i requires 0 <= i < |s| => LowerChar(s[i]))
  }

  /** `q` occurs in `text` starting at position `i`. */
  predicate OccursAt(text: string, q: string, i: int)
  {
    0 <= i && i + |q| <= |text| && text[i..i + |q|] == q
  }

  /** Python's `q in text` for strings, scanning from the left. */
  function Contains(text: string, q: string): bool
    decreases |text|
  {
    (|q| <= |text| && text[..|q|] == q) || (|text| > 0 && Contains(text[1..], q))
  }

  /** The scan finds `q` exactly when `q` occurs somewhere in `text`. */
  lemma {:induction false} ContainsIffOccurs(text: string, q: string)
    ensures Contains(text, q) <==> exists i :: OccursAt(text, q, i)
    decreases |text|
  {
    if |q| <= |text| && text[..|q|] == q {
      assert OccursAt(text, q, 0);
    } else if |text| > 0 {
      ContainsIffOccurs(text[1..], q);
      if Contains(text[1..], q) {
        var i :| OccursAt(text[1..], q, i);
        assert text[i + 1..i + 1 + |q|] == text[1..][i..i + |q|];
        assert OccursAt(text, q, i + 1);
      } else {
        forall i | 0 <= i ensures !OccursAt(text, q, i) {
          if i == 0 && |q| <= |text| {
            assert text[0..|q|] == text[..|q|];
          } else if 0 < i && i + |q| <= |text| {
            assert text[1..][i - 1..i - 1 + |q|] == text[i..i + |q|];
            assert !OccursAt(text[1..], q, i - 1);
          }
        }
      }
    } else {
      assert |q| > 0;
    }
  }
}
