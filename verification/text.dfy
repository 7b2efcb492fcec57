/** Models of the Python `str` methods the scraper relies on: `strip()`, `lower()`,
    `replace(' ', '_')` and `replace('../', '')`. */
module Text {

  /** Python's `str.isspace()` for a single character: the ASCII whitespace and
      separator controls plus the Unicode space separators. */
  predicate IsSpace(c: char) {
    || '\t' <= c <= '\r'
    || '\U{1C}' <= c <= ' '
    || c == '\U{85}' || c == '\U{A0}' || c == '\U{1680}'
    || '\U{2000}' <= c <= '\U{200A}'
    || c == '\U{2028}' || c == '\U{2029}' || c == '\U{202F}' || c == '\U{205F}' || c == '\U{3000}'
  }

  /** Neither end of `s` is whitespace: the shape `strip()` produces. */
  predicate Unpadded(s: string) {
    s == [] || (!IsSpace(s[0]) && !IsSpace(s[|s| - 1]))
  }

  /** The end of the whitespace run that starts at index `i`: `lstrip()` of `s[i..]`
      starts there. */
  function LeadEnd(s: string, i: nat): (n: nat)
    requires i <= |s|
    ensures i <= n <= |s|
    ensures forall k :: i <= k < n ==> IsSpace(s[k])
    ensures n == |s| || !IsSpace(s[n])
    decreases |s| - i
  {
    if i < |s| && IsSpace(s[i]) then LeadEnd(s, i + 1) else i
  }

  /** The start of the whitespace run that ends at index `j`: `rstrip()` of `s[..j]`
      ends there. */
  function TrailStart(s: string, j: nat): (n: nat)
    requires j <= |s|
    ensures n <= j
    ensures forall k :: n <= k < j ==> IsSpace(s[k])
    ensures n == 0 || !IsSpace(s[n - 1])
  {
    if j > 0 && IsSpace(s[j - 1]) then TrailStart(s, j - 1) else j
  }

  /** `s.strip()`: the infix of `s` between its leading and its trailing whitespace; a
      string that already has no whitespace at its ends is returned unchanged. */
  function Strip(s: string): (r: string)
    ensures |r| <= |s|
    ensures Unpadded(r)
    ensures Unpadded(s) ==> r == s
  {
    var a := LeadEnd(s, 0);
    var b := TrailStart(s, |s|);
    if a == |s| then [] else s[a..b]
  }

  /** Any cut of `s` into blank margins and an unpadded middle is the one `Strip` makes. */
  lemma {:induction false} StripIsTheUnpaddedCore(s: string, i: nat, j: nat)
    requires i <= j <= |s|
    requires forall k :: 0 <= k < i ==> IsSpace(s[k])
    requires forall k :: j <= k < |s| ==> IsSpace(s[k])
    requires Unpadded(s[i..j])
    ensures Strip(s) == s[i..j]
  {
    var a := LeadEnd(s, 0);
    var b := TrailStart(s, |s|);
    if i < j {
      assert s[i..j][0] == s[i] && s[i..j][j - i - 1] == s[j - 1];
      assert a == i;
      assert b == j;
    } else {
      assert a == |s|;
    }
  }

  /** `lower()` on one character, restricted to ASCII letters. */
  function LowerChar(c: char): char {
    if 'A' <= c <= 'Z' then (c as int + 32) as char else c
  }

  predicate IsUpperAscii(c: char) {
    'A' <= c <= 'Z'
  }

  /** `s.lower()`, character by character. */
  function Lower(s: string): (r: string)
    ensures |r| == |s|
    ensures forall i :: 0 <= i < |s| ==> r[i] == LowerChar(s[i])
  {
    if s == [] then [] else [LowerChar(s[0])] + Lower(s[1..])
  }

  /** `s.replace(a, b)` for single characters `a` and `b`. */
  function ReplaceChar(s: string, a: char, b: char): (r: string)
    ensures |r| == |s|
    ensures forall i :: 0 <= i < |s| ==> r[i] == (if s[i] == a then b else s[i])
  {
    if s == [] then [] else [if s[0] == a then b else s[0]] + ReplaceChar(s[1..], a, b)
  }

  /** The table-header normalisation `text.strip().lower().replace(' ', '_')`. */
  function NormalizeKey(header: string): string {
    ReplaceChar(Lower(Strip(header)), ' ', '_')
  }

  /** Lower-casing a character neither makes nor removes whitespace, and leaves no
      upper-case ASCII letter. */
  lemma LowerCharShape(c: char)
    ensures IsSpace(LowerChar(c)) <==> IsSpace(c)
    ensures !IsUpperAscii(LowerChar(c))
  {
  }

  /** `lower()` keeps a string free of whitespace at its ends. */
  lemma LowerKeepsUnpadded(s: string)
    requires Unpadded(s)
    ensures Unpadded(Lower(s))
  {
    if s != [] {
      LowerCharShape(s[0]);
      LowerCharShape(s[|s| - 1]);
    }
  }

  /** `replace(' ', '_')` keeps a string free of whitespace at its ends. */
  lemma ReplaceSpaceKeepsUnpadded(s: string)
    requires Unpadded(s)
    ensures Unpadded(ReplaceChar(s, ' ', '_'))
  {
    var r := ReplaceChar(s, ' ', '_');
    if s != [] {
      assert r[0] == '_' || r[0] == s[0];
      assert r[|r| - 1] == '_' || r[|r| - 1] == s[|s| - 1];
    }
  }

  /** `lower()` leaves a string without upper-case ASCII letters unchanged. */
  lemma LowerOfLowered(s: string)
    requires forall i :: 0 <= i < |s| ==> !IsUpperAscii(s[i])
    ensures Lower(s) == s
  {
    assert forall i :: 0 <= i < |s| ==> Lower(s)[i] == s[i];
  }

  /** Replacing a character that does not occur leaves the string unchanged. */
  lemma ReplaceAbsent(s: string, a: char, b: char)
    requires forall i :: 0 <= i < |s| ==> s[i] != a
    ensures ReplaceChar(s, a, b) == s
  {
    assert forall i :: 0 <= i < |s| ==> ReplaceChar(s, a, b)[i] == s[i];
  }

  /** A normalised key has no space, no upper-case ASCII letter and no whitespace at
      either end, and it is no longer than the header it came from. */
  lemma NormalizeKeyShape(header: string)
    ensures forall i :: 0 <= i < |NormalizeKey(header)| ==> NormalizeKey(header)[i] != ' '
    ensures forall i :: 0 <= i < |NormalizeKey(header)| ==> !IsUpperAscii(NormalizeKey(header)[i])
    ensures Unpadded(NormalizeKey(header))
    ensures |NormalizeKey(header)| <= |header|
  {
    var s := Strip(header);
    var l := Lower(s);
    var k := ReplaceChar(l, ' ', '_');
    LowerKeepsUnpadded(s);
    ReplaceSpaceKeepsUnpadded(l);
    forall i | 0 <= i < |k|
      ensures k[i] != ' ' && !IsUpperAscii(k[i])
    {
      LowerCharShape(s[i]);
    }
  }

  /** Normalising a normalised key leaves it unchanged. */
  lemma NormalizeKeyIdempotent(header: string)
    ensures NormalizeKey(NormalizeKey(header)) == NormalizeKey(header)
  {
    var k := NormalizeKey(header);
    NormalizeKeyShape(header);
    assert Strip(k) == k;
    LowerOfLowered(k);
    ReplaceAbsent(k, ' ', '_');
  }

  /** `pat` occurs in `s` starting at index `i`. */
  predicate OccursAt(s: string, i: int, pat: string) {
    0 <= i && i + |pat| <= |s| && s[i..i + |pat|] == pat
  }

  predicate Contains(s: string, pat: string) {
    exists i :: 0 <= i <= |s| && OccursAt(s, i, pat)
  }

  /** `s.replace(pat, '')`: scans left to right and deletes each non-overlapping
      occurrence of `pat`, resuming the scan just after the deleted text. */
  function RemoveAll(s: string, pat: string): (r: string)
    requires pat != []
    ensures |r| <= |s|
    decreases |s|
  {
    if s == [] then []
    else if |pat| <= |s| && s[..|pat|] == pat then RemoveAll(s[|pat|..], pat)
    else [s[0]] + RemoveAll(s[1..], pat)
  }

  /** Removing a pattern changes the string exactly when the pattern occurs in it. */
  lemma {:induction false} RemoveAllUnchangedIff(s: string, pat: string)
    requires pat != []
    ensures RemoveAll(s, pat) == s <==> !Contains(s, pat)
    decreases |s|
  {
    if s == [] {
    } else if |pat| <= |s| && s[..|pat|] == pat {
      assert OccursAt(s, 0, pat);
      assert |RemoveAll(s[|pat|..], pat)| <= |s| - |pat|;
    } else {
      RemoveAllUnchangedIff(s[1..], pat);
      if Contains(s, pat) {
        var i :| 0 <= i <= |s| && OccursAt(s, i, pat);
        assert i != 0;
        assert s[1..][i - 1..i - 1 + |pat|] == s[i..i + |pat|];
        assert OccursAt(s[1..], i - 1, pat);
      } else {
        forall i | OccursAt(s[1..], i, pat)
          ensures false
        {
          assert s[i + 1..i + 1 + |pat|] == s[1..][i..i + |pat|];
          assert OccursAt(s, i + 1, pat);
        }
      }
    }
  }

  /** Deleting a pattern from `s` that the first text starts with removes that occurrence
      and carries on from where it ended. */
  lemma PrefixIsRemoved(pat: string, s: string)
    requires pat != []
    ensures RemoveAll(pat + s, pat) == RemoveAll(s, pat)
  {
    assert (pat + s)[..|pat|] == pat;
    assert (pat + s)[|pat|..] == s;
  }
}
