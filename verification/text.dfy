/** String helpers with the meaning the JavaScript built-ins give them:
    `toLowerCase` (ASCII part only), `includes`, `trim` and `split(sep)[0]`.
    Strings are sequences of Unicode scalar values, so a character outside
    the Basic Multilingual Plane counts once here where a JavaScript string
    counts two UTF-16 code units. */
module Text {

  /** True for the ASCII capital letters 'A'..'Z'. */
  predicate IsUpper(c: char) {
    'A' <= c <= 'Z'
  }

  /** `toLowerCase` on one character, restricted to ASCII. */
  function LowerChar(c: char): (r: char)
    ensures !IsUpper(r)
    ensures IsUpper(c) ==> r as int == c as int + 32
    ensures !IsUpper(c) ==> r == c
  {
    if IsUpper(c) then (c as int + 32) as char else c
  }

  /** `String.prototype.toLowerCase` for ASCII text: every capital letter is
      replaced by its small letter, every other character is kept. */
  function ToLower(s: string): (r: string)
    ensures |r| == |s|
    ensures forall i | 0 <= i < |s| :: r[i] == LowerChar(s[i])
  {
    seq(|s|, i requires 0 <= i < |s| => LowerChar(s[i]))
  }

  /** Lower-casing twice is lower-casing once. */
  lemma ToLowerIdempotent(s: string)
    ensures ToLower(ToLower(s)) == ToLower(s)
  {
  }

  /** `t` occurs in `s` at position `i`. */
  predicate OccursAt(s: string, t: string, i: int) {
    0 <= i && i + |t| <= |s| && s[i..i + |t|] == t
  }

  /** `String.prototype.includes`: `t` occurs somewhere in `s`; the empty
      string occurs in every string. Written as a scan from the left. */
  predicate Contains(s: string, t: string): (r: bool)
    ensures r ==> |t| <= |s|
    ensures r && |t| > 0 ==> t[0] in s
    ensures t <= s ==> r
    decreases |s|
  {
    t <= s || (|s| > 0 && Contains(s[1..], t))
  }

  /** An occurrence found by the scan is an occurrence at some position. */
  lemma {:induction false} ContainsHasOccurrence(s: string, t: string) returns (i: int)
    requires Contains(s, t)
    ensures OccursAt(s, t, i)
    decreases |s|
  {
    if t <= s {
      i := 0;
    } else {
      var j := ContainsHasOccurrence(s[1..], t);
      assert s[1..][j..j + |t|] == s[j + 1..j + 1 + |t|];
      i := j + 1;
    }
  }

  /** An occurrence at any position is found by the scan. */
  lemma {:induction false} OccurrenceIsContained(s: string, t: string, i: int)
    requires OccursAt(s, t, i)
    ensures Contains(s, t)
    decreases i
  {
    if i > 0 {
      assert s[1..][i - 1..i - 1 + |t|] == s[i..i + |t|];
      OccurrenceIsContained(s[1..], t, i - 1);
    }
  }

  /** The scan agrees with the positional definition of an occurrence. */
  lemma ContainsIffOccurs(s: string, t: string)
    ensures Contains(s, t) <==> exists i :: OccursAt(s, t, i)
  {
    if Contains(s, t) {
      var i := ContainsHasOccurrence(s, t);
    }
    forall i | OccursAt(s, t, i)
      ensures Contains(s, t)
    {
      OccurrenceIsContained(s, t, i);
    }
  }

  /** A non-empty text can only occur where its first character does. */
  lemma ContainsFirstChar(s: string, t: string)
    requires |t| > 0 && Contains(s, t)
    ensures t[0] in s
  {
    var i := ContainsHasOccurrence(s, t);
    assert s[i] == t[0];
  }

  /** Every string includes the empty string. */
  lemma ContainsEmpty(s: string)
    ensures Contains(s, "")
  {
  }

  /** The characters `String.prototype.trim` removes: WhiteSpace (including
      every character of the Unicode space-separator category) and
      LineTerminator of the ECMAScript grammar. */
  predicate IsJsSpace(c: char) {
    || c == '\t' || c == '\n' || c == '\U{000B}' || c == '\U{000C}' || c == '\r'
    || c == ' ' || c == '\U{00A0}' || c == '\U{1680}'
    || ('\U{2000}' <= c <= '\U{200A}')
    || c == '\U{2028}' || c == '\U{2029}' || c == '\U{202F}' || c == '\U{205F}'
    || c == '\U{3000}' || c == '\U{FEFF}'
  }

  /** The position of the first character at or after `i` that is not a
      space, or `|s|` when there is none. */
  function SkipSpaces(s: string, i: nat): (j: nat)
    requires i <= |s|
    ensures i <= j <= |s|
    ensures forall k | i <= k < j :: IsJsSpace(s[k])
    ensures j < |s| ==> !IsJsSpace(s[j])
    decreases |s| - i
  {
    if i < |s| && IsJsSpace(s[i]) then SkipSpaces(s, i + 1) else i
  }

  /** The end of `s[lo..j]` once the spaces before `j` are dropped. */
  function SkipSpacesBack(s: string, lo: nat, j: nat): (e: nat)
    requires lo <= j <= |s|
    ensures lo <= e <= j
    ensures forall k | e <= k < j :: IsJsSpace(s[k])
    ensures e > lo ==> !IsJsSpace(s[e - 1])
    decreases j
  {
    if j > lo && IsJsSpace(s[j - 1]) then SkipSpacesBack(s, lo, j - 1) else j
  }

  /** Every character of `s[lo..hi]` is a space. */
  predicate AllSpaces(s: string, lo: nat, hi: nat)
    requires lo <= hi <= |s|
  {
    forall k | lo <= k < hi :: IsJsSpace(s[k])
  }

  /** `String.prototype.trim`: the slice of `s` left once the leading and
      trailing spaces are gone. It is empty exactly when `s` is all spaces. */
  function Trim(s: string): (r: string)
    ensures exists a, b | 0 <= a <= b <= |s| ::
      r == s[a..b] && AllSpaces(s, 0, a) && AllSpaces(s, b, |s|)
    ensures |r| > 0 ==> !IsJsSpace(r[0]) && !IsJsSpace(r[|r| - 1])
    ensures |r| == 0 <==> forall i | 0 <= i < |s| :: IsJsSpace(s[i])
  {
    var a := SkipSpaces(s, 0);
    var b := SkipSpacesBack(s, a, |s|);
    assert AllSpaces(s, 0, a) && AllSpaces(s, b, |s|);
    s[a..b]
  }

  /** The facts above determine `trim`: a slice with only spaces around it
      and no space at either end (or an empty one amid spaces only) is the
      trimmed text. */
  lemma TrimUnique(s: string, a: nat, b: nat)
    requires a <= b <= |s|
    requires AllSpaces(s, 0, a) && AllSpaces(s, b, |s|)
    requires a < b ==> !IsJsSpace(s[a]) && !IsJsSpace(s[b - 1])
    ensures Trim(s) == s[a..b]
  {
    if a == b {
      assert forall i | 0 <= i < |s| :: IsJsSpace(s[i]) by {
        forall i | 0 <= i < |s|
          ensures IsJsSpace(s[i])
        {
          if i < a {
            assert AllSpaces(s, 0, a);
          } else {
            assert AllSpaces(s, b, |s|);
          }
        }
      }
    } else {
      assert SkipSpaces(s, 0) == a;
      assert SkipSpacesBack(s, a, |s|) == b;
    }
  }

  /** `s.split(sep)[0]`: the text of `s` before the first `sep`, or all of
      `s` when it holds no `sep`. */
  function BeforeFirst(s: string, sep: char): (r: string)
    ensures sep !in r
    ensures r <= s
    ensures |r| < |s| ==> s[|r|] == sep
    decreases |s|
  {
    if |s| == 0 || s[0] == sep then "" else [s[0]] + BeforeFirst(s[1..], sep)
  }

  /** The three facts about `BeforeFirst` determine it: a prefix without the
      separator that stops at a separator or at the end is that value. */
  lemma {:induction false} BeforeFirstUnique(s: string, sep: char, p: string)
    requires p <= s && sep !in p
    requires |p| < |s| ==> s[|p|] == sep
    ensures p == BeforeFirst(s, sep)
    decreases |s|
  {
    if |p| > 0 {
      assert s[0] == p[0] && p[0] != sep;
      BeforeFirstUnique(s[1..], sep, p[1..]);
      assert p == [s[0]] + p[1..];
    }
  }
}
