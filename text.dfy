/** The JavaScript string operations the handlers rely on: `trim`, the
    case-insensitive search, `startsWith` and `split(" ")`. */
module Text {

  /** The characters `String.prototype.trim` removes: the WhiteSpace and
      LineTerminator code points of ECMAScript. */
  predicate IsWhitespace(c: char) {
    || c == '\t' || c == '\n' || c == '\U{000B}' || c == '\U{000C}' || c == '\r'
    || c == ' ' || c == '\U{00A0}' || c == '\U{1680}'
    || ('\U{2000}' <= c <= '\U{200A}')
    || c == '\U{2028}' || c == '\U{2029}' || c == '\U{202F}' || c == '\U{205F}'
    || c == '\U{3000}' || c == '\U{FEFF}'
  }

  /** Neither starts nor ends with whitespace. */
  predicate IsTrimmed(s: string) {
    s == [] || (!IsWhitespace(s[0]) && !IsWhitespace(s[|s| - 1]))
  }

  /** The position of the first character at or after `i` that is not
      whitespace, or `|s|` when there is none. */
  function SkipLeading(s: string, i: nat): (k: nat)
    requires i <= |s|
    ensures i <= k <= |s|
    ensures forall j | i <= j < k :: IsWhitespace(s[j])
    ensures k == |s| || !IsWhitespace(s[k])
    decreases |s| - i
  {
    if i < |s| && IsWhitespace(s[i]) then SkipLeading(s, i + 1) else i
  }

  /** The position just after the last character before `j`, and at or
      after `lo`, that is not whitespace, or `lo` when there is none. */
  function SkipTrailing(s: string, lo: nat, j: nat): (k: nat)
    requires lo <= j <= |s|
    ensures lo <= k <= j
    ensures forall m | k <= m < j :: IsWhitespace(s[m])
    ensures k == lo || !IsWhitespace(s[k - 1])
    decreases j
  {
    if lo < j && IsWhitespace(s[j - 1]) then SkipTrailing(s, lo, j - 1) else j
  }

  /** Where the trimmed value starts in `s`. */
  function TrimFrom(s: string): nat {
    SkipLeading(s, 0)
  }

  /** Where the trimmed value ends in `s`. */
  function TrimTo(s: string): (k: nat)
    ensures TrimFrom(s) <= k <= |s|
  {
    SkipTrailing(s, TrimFrom(s), |s|)
  }

  /** `String.prototype.trim`. */
  function Trim(s: string): (r: string)
    ensures IsTrimmed(r) && |r| <= |s|
  {
    s[TrimFrom(s)..TrimTo(s)]
  }

  /** Trim removes exactly a whitespace run at each end and keeps the middle:
      `s` is a whitespace run, then `Trim(s)`, then a whitespace run. */
  lemma TrimCutsOnlyWhitespace(s: string)
    ensures s == s[..TrimFrom(s)] + Trim(s) + s[TrimTo(s)..]
    ensures forall j | 0 <= j < TrimFrom(s) :: IsWhitespace(s[j])
    ensures forall j | TrimTo(s) <= j < |s| :: IsWhitespace(s[j])
  {
    var a, b := TrimFrom(s), TrimTo(s);
    assert s == s[..a] + s[a..b] + s[b..];
  }

  /** A string with no whitespace at either end is its own trim. */
  lemma TrimOfTrimmed(s: string)
    requires IsTrimmed(s)
    ensures Trim(s) == s
  {
  }

  /** Trimming twice is trimming once. */
  lemma TrimIdempotent(s: string)
    ensures Trim(Trim(s)) == Trim(s)
  {
    TrimOfTrimmed(Trim(s));
  }

  /** ASCII lower-casing of one character. */
  function LowerChar(c: char): char {
    if 'A' <= c <= 'Z' then (c as int + 32) as char else c
  }

  /** ASCII lower-casing of a string, character by character. */
  function Lower(s: string): (r: string)
    ensures |r| == |s|
  {
    seq(|s|, i requires 0 <= i < |s| => LowerChar(s[i]))
  }

  /** Lower-casing is idempotent. */
  lemma LowerIdempotent(s: string)
    ensures Lower(Lower(s)) == Lower(s)
  {
  }

  predicate IsPrefix(p: string, s: string) {
    |p| <= |s| && s[..|p|] == p
  }

  /** `needle` occurs in `hay` starting at position `i`. */
  predicate OccursAt(needle: string, hay: string, i: nat) {
    i + |needle| <= |hay| && hay[i..i + |needle|] == needle
  }

  /** Substring search: true exactly when `needle` occurs somewhere in `hay`. */
  function Contains(hay: string, needle: string): (r: bool)
    ensures r <==> exists i: nat :: OccursAt(needle, hay, i)
    decreases |hay|
  {
    if IsPrefix(needle, hay) then
      assert OccursAt(needle, hay, 0);
      true
    else if hay == [] then
      false
    else
      var r := Contains(hay[1..], needle);
      ShiftOccurrence(needle, hay);
      r
  }

  /** An occurrence in `hay` past position 0 is an occurrence in `hay[1..]`,
      and conversely. */
  lemma ShiftOccurrence(needle: string, hay: string)
    requires hay != []
    ensures forall i: nat :: OccursAt(needle, hay, i + 1) <==> OccursAt(needle, hay[1..], i)
    ensures OccursAt(needle, hay, 0) <==> IsPrefix(needle, hay)
    ensures (exists i: nat :: OccursAt(needle, hay, i)) <==>
            IsPrefix(needle, hay) || exists i: nat :: OccursAt(needle, hay[1..], i)
  {
    forall i: nat ensures OccursAt(needle, hay, i + 1) <==> OccursAt(needle, hay[1..], i) {
      if i + 1 + |needle| <= |hay| {
        assert hay[i + 1..i + 1 + |needle|] == hay[1..][i..i + |needle|];
      }
    }
    if exists i: nat :: OccursAt(needle, hay, i) {
      var i: nat :| OccursAt(needle, hay, i);
      if i > 0 {
        assert OccursAt(needle, hay[1..], i - 1);
      }
    }
    if exists i: nat :: OccursAt(needle, hay[1..], i) {
      var i: nat :| OccursAt(needle, hay[1..], i);
      assert OccursAt(needle, hay, i + 1);
    }
  }

  /** The `$regex` search with the `i` option, for a search text without
      regular-expression metacharacters: an ASCII case-insensitive substring
      test. */
  function ContainsIgnoringCase(hay: string, needle: string): bool {
    Contains(Lower(hay), Lower(needle))
  }

  /** `s.split(sep)` for a one-character separator: the pieces between
      consecutive separators, at least one piece, none containing `sep`. */
  function Split(s: string, sep: char): (r: seq<string>)
    ensures |r| >= 1
    ensures forall k | 0 <= k < |r| :: sep !in r[k]
    decreases |s|
  {
    if s == [] then
      [""]
    else
      var rest := Split(s[1..], sep);
      if s[0] == sep then [""] + rest else [[s[0]] + rest[0]] + rest[1..]
  }

  /** `pieces.join(sep)`. */
  function Join(pieces: seq<string>, sep: char): string
    decreases |pieces|
  {
    if pieces == [] then ""
    else if |pieces| == 1 then pieces[0]
    else pieces[0] + [sep] + Join(pieces[1..], sep)
  }

  /** Splitting loses nothing: joining the pieces back gives the string. */
  lemma {:induction false} JoinSplit(s: string, sep: char)
    ensures Join(Split(s, sep), sep) == s
    decreases |s|
  {
    if s != [] {
      var rest := Split(s[1..], sep);
      JoinSplit(s[1..], sep);
      if s[0] == sep {
        assert Split(s, sep) == [""] + rest;
        assert ([""] + rest)[1..] == rest;
      } else {
        var ps := [[s[0]] + rest[0]] + rest[1..];
        assert Split(s, sep) == ps;
        if |rest| == 1 {
          assert Join(ps, sep) == [s[0]] + rest[0];
        } else {
          assert ps[1..] == rest[1..];
          assert Join(rest, sep) == rest[0] + [sep] + Join(rest[1..], sep);
        }
        assert s == [s[0]] + s[1..];
      }
    }
  }

  /** A string without the separator is a single piece. */
  lemma {:induction false} SplitWithoutSeparator(s: string, sep: char)
    requires sep !in s
    ensures Split(s, sep) == [s]
    decreases |s|
  {
    if s != [] {
      SplitWithoutSeparator(s[1..], sep);
      assert [s[0]] + s[1..] == s;
    }
  }

  /** The first piece ends at the first separator. */
  lemma {:induction false} SplitAtFirstSeparator(p: string, sep: char, q: string)
    requires sep !in p
    ensures Split(p + [sep] + q, sep) == [p] + Split(q, sep)
    decreases |p|
  {
    var s := p + [sep] + q;
    if p == [] {
      assert s[1..] == q;
    } else {
      assert s[1..] == p[1..] + [sep] + q;
      SplitAtFirstSeparator(p[1..], sep, q);
      assert [p[0]] + p[1..] == p;
    }
  }
}
