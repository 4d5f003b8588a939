/** The JavaScript string primitives the editor relies on: `toLowerCase`,
    `includes`, `trim`, and the last field of `split`. */
module Text {

  predicate IsUpper(c: char) {
    'A' <= c <= 'Z'
  }

  function LowerChar(c: char): (r: char)
    ensures !IsUpper(r)
    ensures r == c || (IsUpper(c) && r as int == c as int + 32)
  {
    if IsUpper(c) then (c as int + 32) as char else c
  }

  /** `toLowerCase`, on the ASCII letters (see README "Left out"). */
  function ToLower(s: string): (r: string)
    ensures |r| == |s|
    ensures forall i :: 0 <= i < |r| ==> !IsUpper(r[i])
    ensures forall i :: 0 <= i < |s| && !IsUpper(s[i]) ==> r[i] == s[i]
    ensures forall i :: 0 <= i < |s| && IsUpper(s[i]) ==> r[i] as int == s[i] as int + 32
  {
    seq(|s|, i requires 0 <= i < |s| => LowerChar(s[i]))
  }

  lemma ToLowerIdempotent(s: string)
    ensures ToLower(ToLower(s)) == ToLower(s)
  {
  }

  /** `q` is the piece of `s` that starts at index `i`. */
  predicate PieceAt(s: string, q: string, i: int) {
    0 <= i <= |s| - |q| && s[i..i + |q|] == q
  }

  /** JavaScript's substring test: `q` occurs in `s` as a contiguous piece. */
  function Contains(s: string, q: string): (r: bool)
    ensures r <==> exists i :: PieceAt(s, q, i)
  {
    if q <= s then
      assert PieceAt(s, q, 0);
      true
    else if s == [] then
      assert forall i :: !PieceAt(s, q, i);
      false
    else
      var r := Contains(s[1..], q);
      assert forall i :: PieceAt(s[1..], q, i) ==> PieceAt(s, q, i + 1) by {
        forall i | PieceAt(s[1..], q, i) ensures PieceAt(s, q, i + 1) {
          assert s[1..][i..i + |q|] == s[i + 1..i + 1 + |q|];
        }
      }
      assert forall i :: PieceAt(s, q, i) ==> PieceAt(s[1..], q, i - 1) by {
        forall i | PieceAt(s, q, i) ensures PieceAt(s[1..], q, i - 1) {
          assert i != 0 by { assert s[0..|q|] == s[..|q|]; }
          assert s[1..][i - 1..i - 1 + |q|] == s[i..i + |q|];
        }
      }
      r
  }

  lemma EmptyQueryMatches(s: string)
    ensures Contains(s, "")
  {
    assert PieceAt(s, "", 0);
  }

  /** The characters `String.prototype.trim` removes: ECMAScript's WhiteSpace
      and LineTerminator code points. */
  predicate IsJsSpace(c: char) {
    || c == ' ' || c == '\t' || c == '\n' || c == '\r'
    || c == '\U{0B}' || c == '\U{0C}' || c == '\U{A0}' || c == '\U{1680}'
    || ('\U{2000}' <= c <= '\U{200A}')
    || c == '\U{2028}' || c == '\U{2029}' || c == '\U{202F}' || c == '\U{205F}'
    || c == '\U{3000}' || c == '\U{FEFF}'
  }

  /** The index of the first non-space character at or after `i`. */
  function SkipSpaces(s: string, i: nat): (r: nat)
    requires i <= |s|
    ensures i <= r <= |s|
    ensures forall k :: i <= k < r ==> IsJsSpace(s[k])
    ensures r == |s| || !IsJsSpace(s[r])
    decreases |s| - i
  {
    if i < |s| && IsJsSpace(s[i]) then SkipSpaces(s, i + 1) else i
  }

  /** The index just past the last non-space character before `j`, not going
      below `lo`. */
  function SkipSpacesBack(s: string, lo: nat, j: nat): (r: nat)
    requires lo <= j <= |s|
    ensures lo <= r <= j
    ensures forall k :: r <= k < j ==> IsJsSpace(s[k])
    ensures r == lo || !IsJsSpace(s[r - 1])
  {
    if lo < j && IsJsSpace(s[j - 1]) then SkipSpacesBack(s, lo, j - 1) else j
  }

  /** JavaScript's trimming: `s` without its leading and trailing space
      characters. */
  function Trim(s: string): (r: string)
    ensures exists i :: PieceAt(s, r, i)
    ensures exists i :: (&& PieceAt(s, r, i)
                         && (forall k :: 0 <= k < i ==> IsJsSpace(s[k]))
                         && (forall k :: i + |r| <= k < |s| ==> IsJsSpace(s[k])))
    ensures r == [] <==> forall i :: 0 <= i < |s| ==> IsJsSpace(s[i])
    ensures r == [] || (!IsJsSpace(r[0]) && !IsJsSpace(r[|r| - 1]))
  {
    var a := SkipSpaces(s, 0);
    var e := SkipSpacesBack(s, a, |s|);
    assert PieceAt(s, s[a..e], a);
    s[a..e]
  }

  lemma TrimIdempotent(s: string)
    ensures Trim(Trim(s)) == Trim(s)
  {
  }

  /** The last field when `s` is split at `sep`: the longest suffix of `s`
      without `sep`. */
  function LastField(s: string, sep: char): (r: string)
    ensures sep !in r
    ensures |r| <= |s| && r == s[|s| - |r|..]
    ensures |r| < |s| ==> s[|s| - |r| - 1] == sep
  {
    if s == [] then []
    else if s[|s| - 1] == sep then []
    else
      var r := LastField(s[..|s| - 1], sep) + [s[|s| - 1]];
      assert s == s[..|s| - 1] + [s[|s| - 1]];
      r
  }
}
