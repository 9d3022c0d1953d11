/** String helpers used by the affiliates page: case folding, trimming,
    substring search and first-letter capitalisation.

    Case folding is ASCII only: JavaScript's toLowerCase/toUpperCase apply the
    full Unicode case mapping, which this model does not reproduce. */
module Text {

  /** ASCII lower-case mapping of one character. */
  function LowerChar(c: char): char {
    if 'A' <= c <= 'Z' then (c as int + 32) as char else c
  }

  /** ASCII upper-case mapping of one character. */
  function UpperChar(c: char): char {
    if 'a' <= c <= 'z' then (c as int - 32) as char else c
  }

  /** `s.toLowerCase()`. */
  function Lower(s: string): (r: string)
    ensures |r| == |s| && IsLower(r)
  {
    seq(|s|, i requires 0 <= i < |s| => LowerChar(s[i]))
  }

  /** No ASCII upper-case letter occurs in `s`. */
  predicate IsLower(s: string) {
    forall i :: 0 <= i < |s| ==> !('A' <= s[i] <= 'Z')
  }

  /** The characters `String.prototype.trim` removes: ECMAScript WhiteSpace
      (TAB, VT, FF, ZWNBSP and the space separators) and LineTerminator. */
  predicate IsSpace(c: char) {
    c == '\t' || c == '\U{000B}' || c == '\U{000C}' || c == ' ' || c == '\U{00A0}' ||
    c == '\U{FEFF}' || c == '\U{1680}' || ('\U{2000}' <= c <= '\U{200A}') ||
    c == '\U{202F}' || c == '\U{205F}' || c == '\U{3000}' ||
    c == '\n' || c == '\r' || c == '\U{2028}' || c == '\U{2029}'
  }

  /** Neither end of `s` is a whitespace character. */
  predicate IsTrimmed(s: string) {
    s == [] || (!IsSpace(s[0]) && !IsSpace(s[|s| - 1]))
  }

  /** Drops the leading whitespace: the result is a suffix of `s`, everything
      dropped is whitespace, and the result does not start with whitespace. */
  function TrimStart(s: string): (r: string)
    ensures |r| <= |s| && r == s[|s| - |r|..]
    ensures forall i :: 0 <= i < |s| - |r| ==> IsSpace(s[i])
    ensures r != [] ==> !IsSpace(r[0])
  {
    if s != [] && IsSpace(s[0]) then TrimStart(s[1..]) else s
  }

  /** Drops the trailing whitespace: the result is a prefix of `s`, everything
      dropped is whitespace, and the result does not end with whitespace. */
  function TrimEnd(s: string): (r: string)
    ensures |r| <= |s| && r == s[..|r|]
    ensures forall i :: |r| <= i < |s| ==> IsSpace(s[i])
    ensures r != [] ==> !IsSpace(r[|r| - 1])
  {
    if s != [] && IsSpace(s[|s| - 1]) then TrimEnd(s[..|s| - 1]) else s
  }

  /** `s` with whitespace removed from both ends: `s[a..b]` is `r` for some
      `a` and `b` such that everything before `a` and everything from `b` on
      is whitespace. */
  ghost predicate IsTrimOf(s: string, r: string) {
    exists a, b :: IsCut(s, a, b) && r == s[a..b]
  }

  /** Everything of `s` before `a` and from `b` on is whitespace. */
  predicate IsCut(s: string, a: int, b: int) {
    0 <= a <= b <= |s| &&
    (forall i :: 0 <= i < a ==> IsSpace(s[i])) &&
    (forall i :: b <= i < |s| ==> IsSpace(s[i]))
  }

  /** `s.trim()`: only whitespace is dropped, from the ends only, and no
      whitespace is left at either end. */
  function Trim(s: string): (r: string)
    ensures IsTrimOf(s, r)
    ensures IsTrimmed(r)
    ensures Contains(s, r)
    ensures (forall i :: 0 <= i < |s| ==> IsSpace(s[i])) ==> r == []
  {
    var e := TrimEnd(s);
    var r := TrimStart(e);
    TrimIsCut(s, e, r);
    r
  }

  /** Trimming the end and then the start cuts only whitespace from `s`. */
  lemma TrimIsCut(s: string, e: string, r: string)
    requires e == TrimEnd(s) && r == TrimStart(e)
    ensures IsTrimOf(s, r)
    ensures IsTrimmed(r)
    ensures Contains(s, r)
    ensures (forall i :: 0 <= i < |s| ==> IsSpace(s[i])) ==> r == []
  {
    var a, b := TrimBounds(s);
    ContainsSlice(s, a, b);
  }

  /** `hay.includes(needle)`: `needle` occurs in `hay` as a contiguous piece
      (the empty needle occurs everywhere). */
  function Contains(hay: string, needle: string): bool
    decreases |hay|
  {
    needle <= hay || (hay != [] && Contains(hay[1..], needle))
  }

  /** `s.charAt(0).toUpperCase() + s.slice(1)`. */
  function CapitalizeFirst(s: string): (r: string)
    ensures |r| == |s|
    ensures s != [] ==> r[1..] == s[1..] && !('a' <= r[0] <= 'z')
    ensures Lower(r) == Lower(s)
  {
    if s == [] then "" else [UpperChar(s[0])] + s[1..]
  }

  /** How the search box value becomes the search term:
      `value.toLowerCase().trim()`. */
  function NormalizeSearch(raw: string): (term: string)
    ensures IsTrimOf(Lower(raw), term)
    ensures IsLower(term) && IsTrimmed(term)
  {
    var folded := Lower(raw);
    LowerProps(raw);
    TrimLowerIsLower(folded);
    Trim(folded)
  }

  // ---------------------------------------------------------------------
  // Lemmas

  /** `Contains` holds exactly when `needle` starts at some position of `hay`. */
  lemma {:induction false} ContainsIff(hay: string, needle: string)
    ensures Contains(hay, needle) <==> exists i :: 0 <= i <= |hay| && needle <= hay[i..]
    decreases |hay|
  {
    if needle <= hay {
      assert hay[0..] == hay;
    } else if hay == [] {
    } else {
      ContainsIff(hay[1..], needle);
      assert hay[0..] == hay;
      forall i | 1 <= i <= |hay| ensures hay[1..][i - 1..] == hay[i..] {
      }
    }
  }

  /** A slice of `s` is contained in `s`. */
  lemma ContainsSlice(s: string, i: int, j: int)
    requires 0 <= i <= j <= |s|
    ensures Contains(s, s[i..j])
  {
    assert s[i..j] <= s[i..];
    ContainsIff(s, s[i..j]);
  }

  /** Containment is transitive: a piece of a piece of `a` is a piece of `a`. */
  lemma ContainsTransitive(a: string, b: string, c: string)
    requires Contains(a, b) && Contains(b, c)
    ensures Contains(a, c)
  {
    var i := ContainsAt(a, b);
    var j := ContainsAt(b, c);
    PieceOfPiece(a, b, c, i, j);
    ContainsSlice(a, i + j, i + j + |c|);
  }

  /** A position at which a contained `needle` starts in `hay`. */
  lemma ContainsAt(hay: string, needle: string) returns (i: int)
    requires Contains(hay, needle)
    ensures 0 <= i <= |hay| && needle <= hay[i..]
  {
    ContainsIff(hay, needle);
    i :| 0 <= i <= |hay| && needle <= hay[i..];
  }

  /** A piece at `j` of the piece of `a` at `i` is the piece of `a` at `i + j`. */
  lemma PieceOfPiece(a: string, b: string, c: string, i: int, j: int)
    requires 0 <= i <= |a| && b <= a[i..]
    requires 0 <= j <= |b| && c <= b[j..]
    ensures i + j + |c| <= |a| && c == a[i + j..i + j + |c|]
  {
    forall k | 0 <= k < |c| ensures c[k] == a[i + j + k] {
      assert c[k] == b[j..][k] == b[j + k];
      assert b[j + k] == a[i..][j + k];
    }
  }

  /** A needle whose first character does not occur in `hay` is not contained
      in it. */
  lemma {:induction false} NotContainsFirstChar(hay: string, needle: string)
    requires needle != [] && needle[0] !in hay
    ensures !Contains(hay, needle)
    decreases |hay|
  {
    if hay != [] {
      NotContainsFirstChar(hay[1..], needle);
    }
  }

  /** Folding the case twice is folding it once, and the result of a fold is
      lower case; a lower-case string is its own fold. */
  lemma LowerProps(s: string)
    ensures IsLower(Lower(s)) && Lower(Lower(s)) == Lower(s)
    ensures IsLower(s) ==> Lower(s) == s
  {
  }

  /** Trimming keeps a lower-case string lower case. */
  lemma TrimLowerIsLower(s: string)
    requires IsLower(s)
    ensures IsLower(Trim(s))
  {
    var e := TrimEnd(s);
    SliceIsLower(s, 0, |e|);
    var r := TrimStart(e);
    SliceIsLower(e, |e| - |r|, |e|);
    assert Trim(s) == r;
  }

  /** A slice of a lower-case string is lower case. */
  lemma SliceIsLower(s: string, i: int, j: int)
    requires IsLower(s) && 0 <= i <= j <= |s|
    ensures IsLower(s[i..j])
  {
    forall k | 0 <= k < j - i ensures !('A' <= s[i..j][k] <= 'Z') {
      assert s[i..j][k] == s[i + k];
    }
  }

  /** `Trim` is the only way to cut whitespace off the ends of `s` that
      leaves no whitespace at either end. */
  lemma TrimUnique(s: string, r: string)
    requires IsTrimOf(s, r) && IsTrimmed(r)
    ensures r == Trim(s)
  {
    var a, b :| IsCut(s, a, b) && r == s[a..b];
    assert a < b ==> s[a] == r[0] && s[b - 1] == r[|r| - 1];
    var c, d := TrimBounds(s);
    SameCut(s, a, b, c, d);
  }

  /** The bounds at which `Trim` cuts `s`: trimming the end, then the start. */
  lemma TrimBounds(s: string) returns (c: int, d: int)
    ensures IsCut(s, c, d) && TrimStart(TrimEnd(s)) == s[c..d]
    ensures c < d ==> !IsSpace(s[c]) && !IsSpace(s[d - 1])
  {
    var e := TrimEnd(s);
    var t := TrimStart(e);
    c, d := |e| - |t|, |e|;
    assert t == s[c..d];
    assert forall i :: 0 <= i < c ==> s[i] == e[i];
    assert c < d ==> s[c] == t[0] && s[d - 1] == e[|e| - 1];
  }

  /** Two whitespace-only cuts of `s` that each keep a piece with no
      whitespace at its ends keep the same piece. */
  lemma SameCut(s: string, a: int, b: int, c: int, d: int)
    requires IsCut(s, a, b) && (a < b ==> !IsSpace(s[a]) && !IsSpace(s[b - 1]))
    requires IsCut(s, c, d) && (c < d ==> !IsSpace(s[c]) && !IsSpace(s[d - 1]))
    ensures s[a..b] == s[c..d]
  {
    if a < b && c < d {
      assert a == c && b == d;
    }
  }

  /** A string that is already trimmed is left alone by `Trim`. */
  lemma TrimFixesTrimmed(s: string)
    requires IsTrimmed(s)
    ensures Trim(s) == s
  {
    assert TrimEnd(s) == s;
  }

  /** Normalising a search term is idempotent: a term typed in already
      normalised form is used unchanged. */
  lemma NormalizeIdempotent(raw: string)
    ensures NormalizeSearch(NormalizeSearch(raw)) == NormalizeSearch(raw)
  {
    var t := NormalizeSearch(raw);
    LowerProps(t);
    TrimFixesTrimmed(t);
  }

  /** The label shown on a tag button folds back to the tag it stands for
      (tags in the tag universe are already lower case). */
  lemma CapitalizedTagFoldsBack(tag: string)
    requires IsLower(tag)
    ensures Lower(CapitalizeFirst(tag)) == tag
  {
    LowerProps(tag);
  }

  /** Folding the case of `s` cannot produce a lower-case letter that occurs
      in `s` in neither case. */
  lemma LowerAvoids(s: string, c: char)
    requires 'a' <= c <= 'z' && c !in s && UpperChar(c) !in s
    ensures c !in Lower(s)
  {
    forall k | 0 <= k < |s| ensures Lower(s)[k] != c {
      if 'A' <= s[k] <= 'Z' {
        assert s[k] as int == c as int - 32 ==> s[k] == UpperChar(c);
      }
    }
  }
}
