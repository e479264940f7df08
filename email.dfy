/**
 * The email validator of the user schema, the anchored pattern
 *   ^\w+([\.-]?\w+)*@\w+([\.-]?\w+)*(\.\w{2,3})+$
 * written as one predicate per part of the pattern (`Matches`), and a
 * characterisation without any splitting (`Shape`): exactly one '@', a
 * dotted local part, and a dotted domain ending in '.' and two or three
 * word characters.
 */
module Email {
  import opened Text

  /** `[\.-]`: the separators the pattern allows between word runs. */
  predicate IsSep(c: char) {
    c == '.' || c == '-'
  }

  /** `\w+` */
  predicate WordRun(s: string) {
    |s| > 0 && AllWord(s)
  }

  /** `[\.-]?\w+` */
  predicate Step(t: string) {
    WordRun(t) || (|t| > 1 && IsSep(t[0]) && WordRun(t[1..]))
  }

  /** `\w+([\.-]?\w+)*`: a first word run followed by any number of steps. */
  predicate Segment(s: string)
    decreases |s|
  {
    WordRun(s) || exists i | 0 < i < |s| :: Segment(s[..i]) && Step(s[i..])
  }

  /** `\.\w{k}`: a dot and exactly `k` word characters at the start of `t`. */
  predicate Group(t: string, k: nat) {
    k < |t| && t[0] == '.' && WordRun(t[1..k + 1])
  }

  /** `(\.\w{2,3})+`: one or more groups of a dot and two or three word characters. */
  predicate Suffixes(t: string)
    decreases |t|
  {
    (Group(t, 2) && (|t| == 3 || Suffixes(t[3..]))) ||
    (Group(t, 3) && (|t| == 4 || Suffixes(t[4..])))
  }

  /** The whole anchored pattern: local part, '@', domain start, domain suffixes. */
  predicate Matches(s: string) {
    exists i, j | 0 < i && i + 1 < j < |s| ::
      Segment(s[..i]) && s[i] == '@' && Segment(s[i + 1..j]) && Suffixes(s[j..])
  }

  /**
   * Word characters, dots and hyphens only, a word character at both ends,
   * and never two separators side by side.
   */
  predicate Dotted(s: string) {
    |s| > 0 && IsWordChar(s[0]) && IsWordChar(s[|s| - 1]) &&
    (forall i :: 0 <= i < |s| ==> IsWordChar(s[i]) || IsSep(s[i])) &&
    (forall i :: 0 < i < |s| ==> IsWordChar(s[i - 1]) || IsWordChar(s[i]))
  }

  /** `d` ends with a dot followed by exactly `k` word characters. */
  predicate EndsWithTld(d: string, k: nat) {
    k < |d| && d[|d| - k - 1] == '.' && AllWord(d[|d| - k..])
  }

  /** A dotted domain whose last part is a dot and two or three word characters. */
  predicate DomainShape(d: string) {
    Dotted(d) && (EndsWithTld(d, 2) || EndsWithTld(d, 3))
  }

  /** The characterisation of the pattern, stated on the position of the only '@'. */
  predicate Shape(s: string) {
    Count(s, '@') == 1 &&
    var i := IndexOf(s, '@');
    Dotted(s[..i]) && DomainShape(s[i + 1..])
  }

  // ---------------------------------------------------------------------------
  // Joining dotted strings

  /** Two dotted strings written side by side form a dotted string. */
  lemma DottedConcat(a: string, b: string)
    requires Dotted(a) && Dotted(b)
    ensures Dotted(a + b)
  {
    var s := a + b;
    forall i | 0 < i < |s| ensures IsWordChar(s[i - 1]) || IsWordChar(s[i]) {
      if i < |a| {
        assert s[i - 1] == a[i - 1] && s[i] == a[i];
      } else if i == |a| {
        assert s[i - 1] == a[|a| - 1];
      } else {
        assert s[i - 1] == b[i - 1 - |a|] && s[i] == b[i - |a|];
      }
    }
    forall i | 0 <= i < |s| ensures IsWordChar(s[i]) || IsSep(s[i]) {
      if i < |a| { assert s[i] == a[i]; } else { assert s[i] == b[i - |a|]; }
    }
  }

  /** A dotted string, one separator and another dotted string form a dotted string. */
  lemma DottedJoin(a: string, b: string)
    requires Dotted(a) && |b| > 1 && IsSep(b[0]) && Dotted(b[1..])
    ensures Dotted(a + b)
  {
    var s := a + b;
    var c := b[1..];
    forall i | 0 < i < |s| ensures IsWordChar(s[i - 1]) || IsWordChar(s[i]) {
      if i < |a| {
        assert s[i - 1] == a[i - 1] && s[i] == a[i];
      } else if i == |a| {
        assert s[i - 1] == a[|a| - 1];
      } else if i == |a| + 1 {
        assert s[i] == c[0];
      } else {
        assert s[i - 1] == c[i - 2 - |a|] && s[i] == c[i - 1 - |a|];
      }
    }
    forall i | 0 <= i < |s| ensures IsWordChar(s[i]) || IsSep(s[i]) {
      if i < |a| { assert s[i] == a[i]; }
      else if i == |a| { assert s[i] == b[0]; }
      else { assert s[i] == c[i - 1 - |a|]; }
    }
    assert s[|s| - 1] == c[|c| - 1];
  }

  /** Cutting a dotted string just before a separator leaves a dotted prefix. */
  lemma DottedPrefix(s: string, p: nat)
    requires Dotted(s) && 0 < p < |s| && IsSep(s[p])
    ensures Dotted(s[..p])
  {
    assert IsWordChar(s[p]) || IsWordChar(s[p - 1]);
  }

  // ---------------------------------------------------------------------------
  // The segment pattern is exactly the dotted strings

  lemma {:induction false} SegmentIsDotted(s: string)
    requires Segment(s)
    ensures Dotted(s)
    decreases |s|
  {
    if !WordRun(s) {
      var i :| 0 < i < |s| && Segment(s[..i]) && Step(s[i..]);
      SegmentIsDotted(s[..i]);
      var t := s[i..];
      assert s == s[..i] + t;
      if WordRun(t) {
        DottedConcat(s[..i], t);
      } else {
        DottedJoin(s[..i], t);
      }
    }
  }

  lemma {:induction false} DottedIsSegment(s: string)
    requires Dotted(s)
    ensures Segment(s)
    decreases |s|
  {
    var n := |s|;
    if n > 1 {
      if IsWordChar(s[n - 2]) {
        var a := s[..n - 1];
        assert Dotted(a);
        DottedIsSegment(a);
        assert WordRun(s[n - 1..]);
        assert Segment(s[..n - 1]) && Step(s[n - 1..]);
      } else {
        assert IsWordChar(s[n - 2]) || IsWordChar(s[n - 3]);
        var a := s[..n - 2];
        assert Dotted(a);
        DottedIsSegment(a);
        assert s[n - 2..][1..] == s[n - 1..];
        assert Step(s[n - 2..]);
        assert Segment(s[..n - 2]) && Step(s[n - 2..]);
      }
    } else {
      assert WordRun(s);
    }
  }

  lemma SegmentIffDotted(s: string)
    ensures Segment(s) <==> Dotted(s)
  {
    if Segment(s) { SegmentIsDotted(s); }
    if Dotted(s) { DottedIsSegment(s); }
  }

  // ---------------------------------------------------------------------------
  // The suffix groups

  /** What the suffix groups look like: a dot, then a dotted string ending in a short word run. */
  lemma {:induction false} SuffixesShape(t: string)
    requires Suffixes(t)
    ensures |t| > 1 && t[0] == '.' && Dotted(t[1..])
    ensures EndsWithTld(t, 2) || EndsWithTld(t, 3)
    decreases |t|
  {
    var k := if Group(t, 2) && (|t| == 3 || Suffixes(t[3..])) then 2 else 3;
    assert Group(t, k) && (k + 1 == |t| || Suffixes(t[k + 1..]));
    if k + 1 == |t| {
      assert t[1..] == t[1..k + 1];
      assert t[|t| - k..] == t[1..];
      assert EndsWithTld(t, k);
    } else {
      var r := t[k + 1..];
      SuffixesShape(r);
      assert t[1..] == t[1..k + 1] + r;
      DottedJoin(t[1..k + 1], r);
      assert t == t[..k + 1] + r;
      if EndsWithTld(r, 2) {
        TldAfter(t[..k + 1], r, 2);
      } else {
        TldAfter(t[..k + 1], r, 3);
      }
    }
  }

  /** A domain split into a segment and suffix groups has the domain shape, and back. */
  lemma DomainSplitShape(d: string, j: nat)
    requires 0 < j < |d| && Segment(d[..j]) && Suffixes(d[j..])
    ensures DomainShape(d)
  {
    var s, t := d[..j], d[j..];
    SegmentIsDotted(s);
    SuffixesShape(t);
    assert d == s + t;
    DottedJoin(s, t);
    if EndsWithTld(t, 2) {
      TldAfter(s, t, 2);
    } else {
      TldAfter(s, t, 3);
    }
  }

  /** Text in front of an address does not change how it ends. */
  lemma TldAfter(a: string, t: string, k: nat)
    requires EndsWithTld(t, k)
    ensures EndsWithTld(a + t, k)
  {
    var d := a + t;
    assert d[|d| - k..] == t[|t| - k..];
    assert d[|d| - k - 1] == t[|t| - k - 1];
  }

  lemma ShapeSplitDomain(d: string) returns (j: nat)
    requires DomainShape(d)
    ensures 0 < j < |d| && Segment(d[..j]) && Suffixes(d[j..])
  {
    var k := if EndsWithTld(d, 2) then 2 else 3;
    assert EndsWithTld(d, k);
    j := |d| - k - 1;
    assert j != 0 by { assert IsWordChar(d[0]); }
    DottedPrefix(d, j);
    DottedIsSegment(d[..j]);
    var t := d[j..];
    assert t[1..k + 1] == d[|d| - k..];
    assert Group(t, k) && k + 1 == |t|;
  }

  // ---------------------------------------------------------------------------
  // The whole pattern

  lemma DottedHasNoAt(s: string)
    requires Dotted(s)
    ensures forall i :: 0 <= i < |s| ==> s[i] != '@'
  {
    forall i | 0 <= i < |s| ensures s[i] != '@' {
      assert IsWordChar(s[i]) || IsSep(s[i]);
    }
  }

  /** The '@' the pattern matches is the only one, and it sits at position `i`. */
  lemma OnlyAt(s: string, i: nat)
    requires i < |s| && s[i] == '@' && Dotted(s[..i]) && Dotted(s[i + 1..])
    ensures Count(s, '@') == 1 && IndexOf(s, '@') == i
  {
    DottedHasNoAt(s[..i]);
    DottedHasNoAt(s[i + 1..]);
    assert s == s[..i] + ['@'] + s[i + 1..];
    CountAppend(s[..i] + ['@'], s[i + 1..], '@');
    CountAppend(s[..i], ['@'], '@');
    IndexOfAfter(s[..i], '@', s[i + 1..]);
  }

  lemma MatchesHasShape(s: string)
    requires Matches(s)
    ensures Shape(s)
  {
    var i, j :| 0 < i && i + 1 < j < |s| &&
      Segment(s[..i]) && s[i] == '@' && Segment(s[i + 1..j]) && Suffixes(s[j..]);
    var d := s[i + 1..];
    assert d[..j - i - 1] == s[i + 1..j];
    assert d[j - i - 1..] == s[j..];
    DomainSplitShape(d, j - i - 1);
    SegmentIsDotted(s[..i]);
    OnlyAt(s, i);
  }

  lemma ShapeMatches(s: string)
    requires Shape(s)
    ensures Matches(s)
  {
    var i := IndexOf(s, '@');
    var d := s[i + 1..];
    var j' := ShapeSplitDomain(d);
    DottedIsSegment(s[..i]);
    var j := i + 1 + j';
    assert s[i + 1..j] == d[..j'];
    assert s[j..] == d[j'..];
    assert Segment(s[..i]) && s[i] == '@' && Segment(s[i + 1..j]) && Suffixes(s[j..]);
  }

  /** The pattern accepts exactly the strings of the characterisation. */
  lemma MatchesIffShape(s: string)
    ensures Matches(s) <==> Shape(s)
  {
    if Matches(s) { MatchesHasShape(s); }
    if Shape(s) { ShapeMatches(s); }
  }

  /** A domain's final dot and word characters end the whole address too. */
  lemma TldOfAddress(s: string, i: nat)
    requires i < |s| && DomainShape(s[i + 1..])
    ensures EndsWithTld(s, 2) || EndsWithTld(s, 3)
  {
    var d := s[i + 1..];
    assert s == s[..i + 1] + d;
    if EndsWithTld(d, 2) {
      TldAfter(s[..i + 1], d, 2);
    } else {
      TldAfter(s[..i + 1], d, 3);
    }
  }

  /**
   * What an accepted address looks like: exactly one '@', a local part that
   * neither starts nor ends with '.' or '-', and a final dot followed by
   * two or three word characters.
   */
  lemma AcceptedAddress(s: string)
    requires Matches(s)
    ensures Count(s, '@') == 1
    ensures 0 < IndexOf(s, '@') < |s| && !IsSep(s[0]) && !IsSep(s[IndexOf(s, '@') - 1])
    ensures EndsWithTld(s, 2) || EndsWithTld(s, 3)
  {
    MatchesHasShape(s);
    ShapeEnds(s);
    ShapeTld(s);
  }

  /** The local part of an address of the accepted shape lies between the start and the only '@'. */
  lemma ShapeEnds(s: string)
    requires Shape(s)
    ensures 0 < IndexOf(s, '@') < |s| && !IsSep(s[0]) && !IsSep(s[IndexOf(s, '@') - 1])
  {
    var i := IndexOf(s, '@');
    IndexOfFound(s, '@');
    LocalEnds(s, i);
  }

  /** A dotted prefix neither starts nor ends with a separator. */
  lemma LocalEnds(s: string, i: nat)
    requires i <= |s| && Dotted(s[..i])
    ensures 0 < i && !IsSep(s[0]) && !IsSep(s[i - 1])
  {
    DottedEnds(s[..i]);
    assert s[..i][0] == s[0] && s[..i][i - 1] == s[i - 1];
  }

  /** An address of the accepted shape ends as its domain does. */
  lemma ShapeTld(s: string)
    requires Shape(s)
    ensures EndsWithTld(s, 2) || EndsWithTld(s, 3)
  {
    var i := IndexOf(s, '@');
    IndexOfFound(s, '@');
    TldOfAddress(s, i);
  }

  /** A dotted run is non-empty and neither starts nor ends with a separator. */
  lemma DottedEnds(t: string)
    requires Dotted(t)
    ensures |t| > 0 && !IsSep(t[0]) && !IsSep(t[|t| - 1])
  {
  }

  /** An address whose end is not a dot and two or three word characters is rejected. */
  lemma RejectsWithoutTld(s: string)
    requires !EndsWithTld(s, 2) && !EndsWithTld(s, 3)
    ensures !Matches(s)
  {
    if Matches(s) {
      AcceptedAddress(s);
      assert false;
    }
  }
}
