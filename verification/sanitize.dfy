/** The credential normalizer: `sanitizeKey` drops every whitespace rune of
    a raw credential and keeps all other runes in their original order.
    A Go string is modelled as the sequence of runes it decodes to. */
module Sanitize {

  /** Go's `unicode.IsSpace`: the Latin-1 spaces (tab, line feed, vertical
      tab, form feed, carriage return, space, U+0085, U+00A0) and, above
      Latin-1, the code points with the Unicode White_Space property. */
  predicate IsSpace(c: char) {
    || c == '\t' || c == '\n' || c == '\U{000B}' || c == '\U{000C}' || c == '\r'
    || c == ' ' || c == '\U{0085}' || c == '\U{00A0}'
    || c == '\U{1680}'
    || ('\U{2000}' <= c <= '\U{200A}')
    || c == '\U{2028}' || c == '\U{2029}' || c == '\U{202F}' || c == '\U{205F}'
    || c == '\U{3000}'
  }

  /** The code point ranges (first, last) of the Unicode White_Space
      property, as listed in the Unicode Character Database file
      PropList.txt. */
  const WhiteSpace: seq<(char, char)> := [
    ('\t', '\r'), (' ', ' '), ('\U{0085}', '\U{0085}'), ('\U{00A0}', '\U{00A0}'),
    ('\U{1680}', '\U{1680}'), ('\U{2000}', '\U{200A}'), ('\U{2028}', '\U{2029}'),
    ('\U{202F}', '\U{202F}'), ('\U{205F}', '\U{205F}'), ('\U{3000}', '\U{3000}')
  ]

  /** `IsSpace` holds exactly for the White_Space code points: the
      Latin-1 list agrees with the property table below U+0100, and the
      rest is the table itself. */
  lemma IsSpaceIsWhiteSpace(c: char)
    ensures IsSpace(c) <==> exists k :: 0 <= k < |WhiteSpace| && WhiteSpace[k].0 <= c <= WhiteSpace[k].1
  {
    var k := if c <= '\r' then 0 else if c == ' ' then 1 else if c == '\U{0085}' then 2
             else if c == '\U{00A0}' then 3 else if c == '\U{1680}' then 4
             else if c <= '\U{200A}' then 5 else if c <= '\U{2029}' then 6
             else if c == '\U{202F}' then 7 else if c == '\U{205F}' then 8 else 9;
    if IsSpace(c) {
      assert WhiteSpace[k].0 <= c <= WhiteSpace[k].1;
    }
  }

  predicate NoSpace(s: string) {
    forall i :: 0 <= i < |s| ==> !IsSpace(s[i])
  }

  /** `strings.Map` with a mapping that deletes whitespace runes. */
  function SanitizeKey(k: string): (r: string)
    ensures NoSpace(r)
    ensures |r| <= |k|
  {
    if |k| == 0 then []
    else if IsSpace(k[0]) then SanitizeKey(k[1..])
    else [k[0]] + SanitizeKey(k[1..])
  }

  /** Sanitizing works rune by rune: a concatenation is sanitized piecewise. */
  lemma {:induction false} SanitizeAppend(a: string, b: string)
    ensures SanitizeKey(a + b) == SanitizeKey(a) + SanitizeKey(b)
    decreases |a|
  {
    if |a| == 0 {
      assert a + b == b;
    } else {
      assert (a + b)[0] == a[0];
      assert (a + b)[1..] == a[1..] + b;
      SanitizeAppend(a[1..], b);
    }
  }

  /** A single rune is deleted exactly when it is whitespace. */
  lemma SanitizeRune(c: char)
    ensures SanitizeKey([c]) == if IsSpace(c) then [] else [c]
  {
    assert [c][1..] == [];
  }

  /** The strings that sanitizing leaves unchanged are exactly the
      whitespace-free ones. */
  lemma {:induction false} SanitizeFixedPoints(k: string)
    ensures SanitizeKey(k) == k <==> NoSpace(k)
    decreases |k|
  {
    if |k| > 0 && NoSpace(k) {
      assert NoSpace(k[1..]) by {
        forall i | 0 <= i < |k[1..]| ensures !IsSpace(k[1..][i]) {
          assert k[1..][i] == k[i + 1];
        }
      }
      SanitizeFixedPoints(k[1..]);
      assert k == [k[0]] + k[1..];
    }
  }

  lemma SanitizeIdempotent(k: string)
    ensures SanitizeKey(SanitizeKey(k)) == SanitizeKey(k)
  {
    SanitizeFixedPoints(SanitizeKey(k));
  }

  /** Every whitespace rune is gone and every other rune keeps its
      number of occurrences. */
  lemma {:induction false} SanitizeCounts(k: string, c: char)
    ensures multiset(SanitizeKey(k))[c] == if IsSpace(c) then 0 else multiset(k)[c]
    decreases |k|
  {
    if |k| > 0 {
      SanitizeCounts(k[1..], c);
      assert k == [k[0]] + k[1..];
      assert multiset(k) == multiset([k[0]]) + multiset(k[1..]);
      if !IsSpace(k[0]) {
        assert multiset([k[0]] + SanitizeKey(k[1..])) == multiset([k[0]]) + multiset(SanitizeKey(k[1..]));
      }
    }
  }
}
