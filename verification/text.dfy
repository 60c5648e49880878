/** String primitives the gateway borrows from JavaScript: `toLowerCase`,
    `trim`, `includes`, `startsWith` and the pieces of `split`. Strings are
    sequences of code points. */
module Text {
  import opened Wrappers
  import opened Scan

  // ---------------------------------------------------------------------
  // Case
  // ---------------------------------------------------------------------

  predicate IsUpper(c: char) {
    'A' <= c <= 'Z'
  }

  /** `toLowerCase` on one character, restricted to ASCII letters. */
  function LowerChar(c: char): (d: char)
    ensures !IsUpper(d)
    ensures !IsUpper(c) ==> d == c
  {
    if IsUpper(c) then (c as int + 32) as char else c
  }

  /** A string with no upper-case ASCII letter: the canonical form of
      every key the gateway compares. */
  predicate IsLower(s: string) {
    forall i | 0 <= i < |s| :: !IsUpper(s[i])
  }

  function Lower(s: string): (r: string)
    ensures |r| == |s|
    ensures forall i | 0 <= i < |s| :: r[i] == LowerChar(s[i])
    ensures IsLower(r)
    ensures IsLower(s) ==> r == s
  {
    seq(|s|, i requires 0 <= i < |s| => LowerChar(s[i]))
  }

  // ---------------------------------------------------------------------
  // White space
  // ---------------------------------------------------------------------

  /** ECMAScript WhiteSpace and LineTerminator code points: what `trim`
      removes and what the regular-expression class `\s` matches. */
  predicate IsSpace(c: char) {
    var n := c as int;
    || n == 0x09 || n == 0x0A || n == 0x0B || n == 0x0C || n == 0x0D
    || n == 0x20 || n == 0xA0 || n == 0x1680
    || (0x2000 <= n <= 0x200A)
    || n == 0x2028 || n == 0x2029 || n == 0x202F || n == 0x205F
    || n == 0x3000 || n == 0xFEFF
  }

  /** The code points the regular-expression `.` refuses to match. */
  predicate IsLineTerminator(c: char) {
    var n := c as int;
    n == 0x0A || n == 0x0D || n == 0x2028 || n == 0x2029
  }

  function TrimStart(s: string): (r: string)
    ensures |r| <= |s| && r == s[|s| - |r|..]
    ensures forall i | 0 <= i < |s| - |r| :: IsSpace(s[i])
    ensures r == [] || !IsSpace(r[0])
  {
    if |s| > 0 && IsSpace(s[0]) then TrimStart(s[1..]) else s
  }

  function TrimEnd(s: string): (r: string)
    ensures |r| <= |s| && r == s[..|r|]
    ensures forall i | |r| <= i < |s| :: IsSpace(s[i])
    ensures r == [] || !IsSpace(r[|r| - 1])
  {
    if |s| > 0 && IsSpace(s[|s| - 1]) then TrimEnd(s[..|s| - 1]) else s
  }

  /** `String.prototype.trim`: the slice of `s` left after removing
      white space at both ends. */
  function Trim(s: string): (r: string)
    ensures r == [] || (!IsSpace(r[0]) && !IsSpace(r[|r| - 1]))
    ensures exists a: nat :: TrimmedAt(s, r, a)
  {
    var t := TrimStart(s);
    var r := TrimEnd(t);
    var a := |s| - |t|;
    assert TrimmedAt(s, r, a);
    r
  }

  /** `r` is `s` with white space only removed before position `a` and
      after position `a + |r|`. */
  predicate TrimmedAt(s: string, r: string, a: nat) {
    && a + |r| <= |s|
    && r == s[a..a + |r|]
    && (forall i | 0 <= i < a :: IsSpace(s[i]))
    && (forall i | a + |r| <= i < |s| :: IsSpace(s[i]))
  }

  /** A string with no white space at either end is its own trim. */
  lemma TrimOfTrimmed(s: string)
    requires s == [] || (!IsSpace(s[0]) && !IsSpace(s[|s| - 1]))
    ensures Trim(s) == s
  {
    var r := Trim(s);
    var a: nat :| TrimmedAt(s, r, a);
  }

  /** Lower-casing neither creates nor removes a non-letter character. */
  lemma LowerKeepsNonLetter(s: string, c: char)
    requires !IsUpper(c) && LowerChar(c) == c
    ensures c in s ==> c in Lower(s)
    ensures !('a' <= c <= 'z') ==> (c in Lower(s) <==> c in s)
  {
    if c in s {
      var i :| 0 <= i < |s| && s[i] == c;
      assert Lower(s)[i] == c;
    }
    if c in Lower(s) {
      var i :| 0 <= i < |s| && Lower(s)[i] == c;
      assert LowerChar(s[i]) == c;
    }
  }

  lemma SliceOfLowerIsLower(s: string, a: nat, b: nat)
    requires IsLower(s) && a <= b <= |s|
    ensures IsLower(s[a..b])
  {
  }

  lemma JoinOfLowerIsLower(x: string, y: string)
    requires IsLower(x) && IsLower(y)
    ensures IsLower(x + y)
  {
    forall k | 0 <= k < |x + y| ensures !IsUpper((x + y)[k]) {
      if k < |x| {
        assert (x + y)[k] == x[k];
      } else {
        assert (x + y)[k] == y[k - |x|];
      }
    }
  }

  lemma TrimKeepsLower(s: string)
    requires IsLower(s)
    ensures IsLower(Trim(s))
  {
    var r := Trim(s);
    var a: nat :| TrimmedAt(s, r, a);
    SliceOfLowerIsLower(s, a, a + |r|);
  }

  // ---------------------------------------------------------------------
  // Searching and splitting
  // ---------------------------------------------------------------------

  /** Position of the first `c` in `s`. */
  function IndexOf(s: string, c: char): (r: Option<nat>)
    ensures r.None? <==> c !in s
    ensures r.Some? ==> r.value < |s| && s[r.value] == c && c !in s[..r.value]
  {
    var hit := (i: nat) => i < |s| && s[i] == c;
    var h := FirstHit(0, |s|, hit);
    if h.Some? then
      assert forall j | 0 <= j < h.value :: !hit(j);
      assert forall j | 0 <= j < h.value :: s[j] != c by {
        forall j | 0 <= j < h.value ensures s[j] != c {
          assert !hit(j);
        }
      }
      h
    else
      assert forall j | 0 <= j < |s| :: s[j] != c by {
        forall j | 0 <= j < |s| ensures s[j] != c {
          assert !hit(j);
        }
      }
      h
  }

  /** `s.split(c)[0]`: everything before the first `c`, or all of `s`. */
  function Before(s: string, c: char): (r: string)
    ensures c !in r
    ensures |r| <= |s| && r == s[..|r|]
    ensures c in s ==> |r| < |s| && s[|r|] == c
    ensures c !in s ==> r == s
  {
    var k := IndexOf(s, c);
    if k.Some? then s[..k.value] else s
  }

  /** Everything after the first `c`; empty when there is none. Together
      with `Before` it splits `s` at its first `c`. */
  function After(s: string, c: char): (r: string)
    ensures c in s ==> s == Before(s, c) + [c] + r
    ensures c !in s ==> r == []
  {
    var k := IndexOf(s, c);
    if k.Some? then s[k.value + 1..] else []
  }

  lemma BeforeAfterOfJoin(x: string, c: char, y: string)
    requires c !in x
    ensures Before(x + [c] + y, c) == x
    ensures After(x + [c] + y, c) == y
  {
    var s := x + [c] + y;
    assert s[|x|] == c;
  }

  /** `s.startsWith(p)`. */
  predicate StartsWith(s: string, p: string) {
    |p| <= |s| && s[..|p|] == p
  }

  /** `needle` occurs in `hay` at position `i`. */
  predicate OccursAt(hay: string, needle: string, i: nat) {
    i + |needle| <= |hay| && hay[i..i + |needle|] == needle
  }

  /** `hay.includes(needle)`. */
  function Contains(hay: string, needle: string): (b: bool)
    ensures b <==> exists i: nat | i <= |hay| :: OccursAt(hay, needle, i)
  {
    var hit := (i: nat) => OccursAt(hay, needle, i);
    var h := FirstHit(0, |hay| + 1, hit);
    if h.Some? then
      assert OccursAt(hay, needle, h.value);
      true
    else
      assert forall i: nat | i <= |hay| :: !OccursAt(hay, needle, i) by {
        forall i: nat | i <= |hay| ensures !OccursAt(hay, needle, i) {
          assert !hit(i);
        }
      }
      false
  }
}
