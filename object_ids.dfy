/** Task and user identifiers. The well-formedness check that guards every
    lookup by id takes an identifier to be 24 hexadecimal digits; two such
    strings denote the same identifier when they agree up to the case of the
    letters, so the table keeps each identifier in lower case. */
module ObjectIds {
  import opened Text

  predicate IsHexDigit(c: char) {
    ('0' <= c <= '9') || ('a' <= c <= 'f') || ('A' <= c <= 'F')
  }

  /** The check a path id must pass before any lookup. */
  predicate IsValidId(s: string) {
    |s| == 24 && forall i | 0 <= i < |s| :: IsHexDigit(s[i])
  }

  /** The form in which identifiers are stored. */
  predicate IsCanonical(s: string) {
    IsValidId(s) && Lower(s) == s
  }

  /** The stored form of a well-formed id. */
  function Canonical(s: string): (r: string)
    requires IsValidId(s)
    ensures IsCanonical(r)
    ensures |r| == |s| && forall i | 0 <= i < |s| :: LowerChar(r[i]) == LowerChar(s[i])
  {
    LowerIdempotent(s);
    Lower(s)
  }

  /** A stored identifier, and any spelling of it that differs only in the
      case of its letters, leads back to it. */
  lemma CanonicalOfCanonical(s: string)
    requires IsCanonical(s)
    ensures Canonical(s) == s
    ensures forall s' | IsValidId(s') && Lower(s') == s :: Canonical(s') == s
  {
  }

  /** Twenty-four decimal digits are an identifier in its stored form. */
  lemma DigitsAreCanonical(s: string)
    requires |s| == 24 && forall i | 0 <= i < |s| :: '0' <= s[i] <= '9'
    ensures IsCanonical(s)
  {
    assert forall i | 0 <= i < |s| :: Lower(s)[i] == s[i];
  }
}
