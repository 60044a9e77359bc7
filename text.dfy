/**
 * The string operations the customer queries rely on: SQL `UPPER` (and the
 * upper-casing behind Spring Data's `IgnoringCase`) restricted to ASCII, and
 * the substring test that `LIKE CONCAT('%', x, '%')` performs when `x` holds
 * no wildcard character.
 */
module Text {

  predicate IsAsciiLower(c: char) {
    'a' <= c <= 'z'
  }

  /** Upper-cases one character: ASCII lower-case letters become upper case, all else is kept. */
  function UpperChar(c: char): (u: char)
    ensures !IsAsciiLower(u)
    ensures !IsAsciiLower(c) ==> u == c
    ensures IsAsciiLower(c) ==> 'A' <= u <= 'Z' && u as int + 32 == c as int
  {
    if IsAsciiLower(c) then (c as int - 32) as char else c
  }

  /** Upper-cases every character of `s`. */
  function Upper(s: string): string {
    seq(|s|, i requires 0 <= i < |s| => UpperChar(s[i]))
  }

  /** Equality ignoring case, as `UPPER(a) = UPPER(b)`. */
  predicate EqualsIgnoreCase(a: string, b: string) {
    Upper(a) == Upper(b)
  }

  /** Upper-casing twice is upper-casing once. */
  lemma UpperIdempotent(s: string)
    ensures Upper(Upper(s)) == Upper(s)
  {
    assert forall i :: 0 <= i < |s| ==> Upper(Upper(s))[i] == Upper(s)[i];
  }

  /** `needle` occurs in `hay` starting at position `i`. */
  ghost predicate OccursAt(hay: string, needle: string, i: nat) {
    i + |needle| <= |hay| && hay[i..i + |needle|] == needle
  }

  /** `hay` contains `needle` as a contiguous substring: a prefix of `hay` or contained in its tail. */
  predicate Contains(hay: string, needle: string)
    decreases |hay|
  {
    (|needle| <= |hay| && hay[..|needle|] == needle) || (0 < |hay| && Contains(hay[1..], needle))
  }

  /** An occurrence at position `i` makes `Contains` hold. */
  lemma {:induction false} OccursImpliesContains(hay: string, needle: string, i: nat)
    requires OccursAt(hay, needle, i)
    ensures Contains(hay, needle)
    decreases i
  {
    if i > 0 {
      assert hay[1..][i - 1..i - 1 + |needle|] == hay[i..i + |needle|];
      OccursImpliesContains(hay[1..], needle, i - 1);
    }
  }

  /** When `Contains` holds, the needle occurs at the returned position. */
  lemma {:induction false} ContainsWitness(hay: string, needle: string) returns (i: nat)
    requires Contains(hay, needle)
    ensures OccursAt(hay, needle, i)
    decreases |hay|
  {
    if |needle| <= |hay| && hay[..|needle|] == needle {
      i := 0;
    } else {
      var j := ContainsWitness(hay[1..], needle);
      assert hay[1..][j..j + |needle|] == hay[j + 1..j + 1 + |needle|];
      i := j + 1;
    }
  }

  /** `Contains` holds exactly when the needle occurs at some position of the haystack. */
  lemma ContainsIffOccurs(hay: string, needle: string)
    ensures Contains(hay, needle) <==> exists i: nat :: OccursAt(hay, needle, i)
  {
    if Contains(hay, needle) {
      var i := ContainsWitness(hay, needle);
    }
    forall i: nat | OccursAt(hay, needle, i)
      ensures Contains(hay, needle)
    {
      OccursImpliesContains(hay, needle, i);
    }
  }

  /** The empty string is contained in every string: an empty search string matches every row. */
  lemma EmptyIsContained(hay: string)
    ensures Contains(hay, "")
  {
  }
}
