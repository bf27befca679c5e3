/**
 * The two string operations the search filter uses. Lower-casing depends on
 * the platform's Unicode tables, so it is a per-character map supplied by the
 * caller; `includes` is plain substring search.
 */
module Text {

  /** A per-character case mapping, standing for `String.prototype.toLowerCase`. */
  type CharFold = char -> char

  /** `s.toLowerCase()`, applying the case mapping to every character. */
  function Lower(s: string, lower: CharFold): string {
    if s == [] then [] else [lower(s[0])] + Lower(s[1..], lower)
  }

  /** `hay.includes(needle)`: the needle starts at some position of the hay. */
  predicate Includes(hay: string, needle: string) {
    needle <= hay || (hay != [] && Includes(hay[1..], needle))
  }

  /** `needle` occurs in `hay` starting at index `i`. */
  ghost predicate OccursAt(hay: string, needle: string, i: int) {
    0 <= i <= |hay| - |needle| && hay[i..i + |needle|] == needle
  }

  /** Includes agrees with the textbook definition of a substring, in both directions. */
  lemma {:induction false} IncludesIffSubstring(hay: string, needle: string)
    ensures Includes(hay, needle) <==> exists i :: OccursAt(hay, needle, i)
  {
    if hay == [] {
      if Includes(hay, needle) {
        assert OccursAt(hay, needle, 0);
      }
    } else {
      IncludesIffSubstring(hay[1..], needle);
      if Includes(hay, needle) {
        if needle <= hay {
          assert OccursAt(hay, needle, 0);
        } else {
          var i :| OccursAt(hay[1..], needle, i);
          assert hay[i + 1..i + 1 + |needle|] == hay[1..][i..i + |needle|];
          assert OccursAt(hay, needle, i + 1);
        }
      }
      if exists i :: OccursAt(hay, needle, i) {
        var i :| OccursAt(hay, needle, i);
        if i == 0 {
          assert needle <= hay;
        } else {
          assert hay[1..][i - 1..i - 1 + |needle|] == needle;
          assert OccursAt(hay[1..], needle, i - 1);
        }
      }
    }
  }
}
