/**
 * Character classes and string helpers shared by the validators and the
 * search filter. Characters are compared exactly as JavaScript regular
 * expressions without the `u` flag compare them.
 */
module Text {

  /** `\d` and `[0-9]`: an ASCII decimal digit. */
  predicate IsDigit(c: char) {
    '0' <= c <= '9'
  }

  /** `\w`: an ASCII letter, an ASCII digit or the underscore. */
  predicate IsWordChar(c: char) {
    'a' <= c <= 'z' || 'A' <= c <= 'Z' || IsDigit(c) || c == '_'
  }

  predicate AllDigits(s: string) {
    forall i :: 0 <= i < |s| ==> IsDigit(s[i])
  }

  predicate AllWord(s: string) {
    forall i :: 0 <= i < |s| ==> IsWordChar(s[i])
  }

  /** `key` occurs in `s` starting at position `i`. */
  predicate OccursAt(s: string, key: string, i: nat) {
    i + |key| <= |s| && s[i..i + |key|] == key
  }

  /** `key` occurs somewhere in `s` as a contiguous block. */
  predicate Contains(s: string, key: string) {
    exists i: nat | i <= |s| :: OccursAt(s, key, i)
  }

  /** ASCII case folding: upper-case letters become lower-case, everything else stays. */
  function LowerChar(c: char): (d: char)
    ensures 'A' <= c <= 'Z' ==> d as int == c as int + 32
    ensures !('A' <= c <= 'Z') ==> d == c
    ensures !('A' <= d <= 'Z')
  {
    if 'A' <= c <= 'Z' then (c as int + 32) as char else c
  }

  function Lower(s: string): (r: string)
    ensures |r| == |s|
    ensures forall i :: 0 <= i < |s| ==> r[i] == LowerChar(s[i])
  {
    seq(|s|, i requires 0 <= i < |s| => LowerChar(s[i]))
  }

  /** Substring match under the `i` flag (ASCII case folding on both sides). */
  predicate ContainsIgnoringCase(s: string, key: string) {
    Contains(Lower(s), Lower(key))
  }

  /** Number of occurrences of `c` in `s`. */
  function Count(s: string, c: char): (n: nat)
    ensures n <= |s|
    ensures n == 0 <==> (forall i :: 0 <= i < |s| ==> s[i] != c)
  {
    if s == [] then 0 else (if s[0] == c then 1 else 0) + Count(s[1..], c)
  }

  /** Position of the first `c` in `s`; `|s|` when there is none. */
  function IndexOf(s: string, c: char): (i: nat)
    ensures i <= |s|
    ensures i < |s| ==> s[i] == c
    ensures forall j :: 0 <= j < i ==> s[j] != c
  {
    if s == [] then 0 else if s[0] == c then 0 else 1 + IndexOf(s[1..], c)
  }

  /** `IndexOf` finds a position exactly when the character occurs. */
  lemma IndexOfFound(s: string, c: char)
    ensures IndexOf(s, c) < |s| <==> Count(s, c) > 0
  {
  }

  lemma {:induction false} CountAppend(a: string, b: string, c: char)
    ensures Count(a + b, c) == Count(a, c) + Count(b, c)
  {
    if a == [] {
      assert a + b == b;
    } else {
      assert (a + b)[1..] == a[1..] + b;
      CountAppend(a[1..], b, c);
    }
  }

  /** The first `c` is found right after a prefix free of `c`. */
  lemma {:induction false} IndexOfAfter(a: string, c: char, b: string)
    requires forall j :: 0 <= j < |a| ==> a[j] != c
    ensures IndexOf(a + [c] + b, c) == |a|
  {
    var s := a + [c] + b;
    if a != [] {
      assert s[1..] == a[1..] + [c] + b;
      IndexOfAfter(a[1..], c, b);
    }
  }

  /** A key whose first character does not occur in `s` is not contained in it. */
  lemma FirstCharAbsent(s: string, key: string)
    requires key != [] && forall j :: 0 <= j < |s| ==> s[j] != key[0]
    ensures !Contains(s, key)
  {
    forall i: nat | i <= |s| ensures !OccursAt(s, key, i) {
      if i + |key| <= |s| {
        assert s[i..i + |key|][0] == s[i];
      }
    }
  }
}
