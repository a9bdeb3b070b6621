/** Wildcard matching of one path component. */
module Glob {
  import opened Machine

  const STAR := 42
  const QUESTION := 63

  /** The matcher: '*' stands for any run, '?' for any one byte, everything else, '[' included, for itself. */
  predicate GlobComponentMatch(pattern: seq<byte>, text: seq<byte>)
    decreases |pattern| + |text|
  {
    if pattern == [] then text == []
    else if pattern[0] == STAR then
      GlobComponentMatch(pattern[1..], text) || (text != [] && GlobComponentMatch(pattern, text[1..]))
    else if pattern[0] == QUESTION then
      text != [] && GlobComponentMatch(pattern[1..], text[1..])
    else
      text != [] && pattern[0] == text[0] && GlobComponentMatch(pattern[1..], text[1..])
  }

  // ----- The language of a pattern -------------------------------------------------------------

  /** The texts that one pattern byte stands for. */
  predicate Denotes(p: byte, part: seq<byte>)
  {
    if p == STAR then true
    else if p == QUESTION then |part| == 1
    else part == [p]
  }

  /** A text cut into one part for each pattern byte. */
  ghost predicate IsCut(pattern: seq<byte>, text: seq<byte>, parts: seq<seq<byte>>)
  {
    |parts| == |pattern| && Concat(parts) == text && forall i :: 0 <= i < |pattern| ==> Denotes(pattern[i], parts[i])
  }

  ghost predicate InLanguage(pattern: seq<byte>, text: seq<byte>)
  {
    exists parts: seq<seq<byte>> :: IsCut(pattern, text, parts)
  }

  lemma ExtendCut(p: byte, pattern: seq<byte>, part: seq<byte>, text: seq<byte>, parts: seq<seq<byte>>)
    requires Denotes(p, part) && IsCut(pattern, text, parts)
    ensures IsCut([p] + pattern, part + text, [part] + parts)
  {
    assert ([part] + parts)[1..] == parts;
  }

  lemma ShrinkCut(pattern: seq<byte>, text: seq<byte>, parts: seq<seq<byte>>)
    requires pattern != [] && IsCut(pattern, text, parts)
    ensures Denotes(pattern[0], parts[0]) && text == parts[0] + text[|parts[0]|..]
    ensures IsCut(pattern[1..], text[|parts[0]|..], parts[1..])
  {
    assert text == parts[0] + Concat(parts[1..]);
    assert text[|parts[0]|..] == Concat(parts[1..]);
  }

  /** Whatever the matcher accepts can be cut accordingly. */
  lemma {:induction false} MatchHasCut(pattern: seq<byte>, text: seq<byte>) returns (parts: seq<seq<byte>>)
    requires GlobComponentMatch(pattern, text)
    ensures IsCut(pattern, text, parts)
    decreases |pattern| + |text|
  {
    if pattern == [] {
      parts := [];
    } else {
      assert pattern == [pattern[0]] + pattern[1..];
      if pattern[0] == STAR && !GlobComponentMatch(pattern[1..], text) {
        var rest := MatchHasCut(pattern, text[1..]);
        ShrinkCut(pattern, text[1..], rest);
        var run := [text[0]] + rest[0];
        ExtendCut(STAR, pattern[1..], run, text[1..][|rest[0]|..], rest[1..]);
        parts := [run] + rest[1..];
        assert text == run + text[1..][|rest[0]|..];
      } else {
        var part := if pattern[0] == STAR then [] else text[..1];
        assert text == part + text[|part|..];
        var rest := MatchHasCut(pattern[1..], text[|part|..]);
        ExtendCut(pattern[0], pattern[1..], part, text[|part|..], rest);
        parts := [part] + rest;
      }
    }
  }

  /** Whatever can be cut accordingly is accepted. */
  lemma {:induction false} CutIsMatched(pattern: seq<byte>, text: seq<byte>, parts: seq<seq<byte>>)
    requires IsCut(pattern, text, parts)
    ensures GlobComponentMatch(pattern, text)
    decreases |pattern| + |text|
  {
    if pattern != [] {
      ShrinkCut(pattern, text, parts);
      if pattern[0] == STAR && parts[0] != [] {
        var shorter := [parts[0][1..]] + parts[1..];
        ExtendCut(STAR, pattern[1..], parts[0][1..], text[|parts[0]|..], parts[1..]);
        assert pattern == [STAR] + pattern[1..];
        assert text[1..] == parts[0][1..] + text[|parts[0]|..];
        CutIsMatched(pattern, text[1..], shorter);
      } else {
        CutIsMatched(pattern[1..], text[|parts[0]|..], parts[1..]);
      }
    }
  }

  /** The matcher decides exactly the language of the pattern. */
  lemma MatchesLanguage(pattern: seq<byte>, text: seq<byte>)
    ensures GlobComponentMatch(pattern, text) <==> InLanguage(pattern, text)
  {
    if GlobComponentMatch(pattern, text) {
      var parts := MatchHasCut(pattern, text);
    } else if InLanguage(pattern, text) {
      var parts :| IsCut(pattern, text, parts);
      CutIsMatched(pattern, text, parts);
    }
  }

  /** What one byte of a pattern stands for: the 42 that is a star any text, the 63 that is a question mark any
      single byte, and every other one, the bracket 91 included, itself alone. */
  lemma OneBytePattern(p: byte, text: seq<byte>)
    ensures GlobComponentMatch([p], text)
            <==> if p == 42 then true else if p == 63 then |text| == 1 else |text| == 1 && text[0] == p
    ensures GlobComponentMatch([], text) <==> |text| == 0
  {
    MatchesLanguage([p], text);
    if p == 42 {
      StarMatchesAll(text);
    } else {
      assert text != [] ==> ([p][1..] == [] && (text[1..] == [] <==> |text| == 1));
    }
  }

  // ----- Composition -----------------------------------------------------------------------------

  lemma {:induction false} ConcatAppend(a: seq<seq<byte>>, b: seq<seq<byte>>)
    ensures Concat(a + b) == Concat(a) + Concat(b)
  {
    if a == [] {
      assert a + b == b;
    } else {
      assert (a + b)[1..] == a[1..] + b;
      ConcatAppend(a[1..], b);
    }
  }

  lemma CutsJoin(p: seq<byte>, q: seq<byte>, s: seq<byte>, t: seq<byte>, a: seq<seq<byte>>, b: seq<seq<byte>>)
    requires IsCut(p, s, a) && IsCut(q, t, b)
    ensures IsCut(p + q, s + t, a + b)
  {
    ConcatAppend(a, b);
  }

  lemma CutSplits(p: seq<byte>, q: seq<byte>, text: seq<byte>, parts: seq<seq<byte>>) returns (k: nat)
    requires IsCut(p + q, text, parts)
    ensures k <= |text| && |p| <= |parts| && IsCut(p, text[..k], parts[..|p|]) && IsCut(q, text[k..], parts[|p|..])
  {
    var a, b := parts[..|p|], parts[|p|..];
    assert parts == a + b;
    ConcatAppend(a, b);
    k := |Concat(a)|;
    assert text[..k] == Concat(a) && text[k..] == Concat(b);
    forall i | 0 <= i < |p|
      ensures Denotes(p[i], a[i])
    {
      assert (p + q)[i] == p[i] && parts[i] == a[i];
    }
    forall i | 0 <= i < |q|
      ensures Denotes(q[i], b[i])
    {
      var j := |p| + i;
      assert (p + q)[j] == q[i] && parts[j] == b[i];
    }
  }

  /** A concatenation of patterns matches exactly the concatenations of what they match. */
  lemma MatchesCompose(p: seq<byte>, q: seq<byte>, text: seq<byte>)
    ensures GlobComponentMatch(p + q, text)
            <==> exists k :: 0 <= k <= |text| && GlobComponentMatch(p, text[..k]) && GlobComponentMatch(q, text[k..])
  {
    hide GlobComponentMatch, IsCut;
    if GlobComponentMatch(p + q, text) {
      var parts := MatchHasCut(p + q, text);
      var k := CutSplits(p, q, text, parts);
      CutIsMatched(p, text[..k], parts[..|p|]);
      CutIsMatched(q, text[k..], parts[|p|..]);
    } else if k :| 0 <= k <= |text| && GlobComponentMatch(p, text[..k]) && GlobComponentMatch(q, text[k..]) {
      var a := MatchHasCut(p, text[..k]);
      var b := MatchHasCut(q, text[k..]);
      CutsJoin(p, q, text[..k], text[k..], a, b);
      assert text == text[..k] + text[k..];
      CutIsMatched(p + q, text, a + b);
    }
  }

  lemma {:induction false} StarMatchesAll(text: seq<byte>)
    ensures GlobComponentMatch([STAR], text)
  {
    if text != [] {
      StarMatchesAll(text[1..]);
    }
  }

  lemma TwoStars(text: seq<byte>)
    ensures GlobComponentMatch([STAR, STAR], text)
  {
    StarMatchesAll(text);
    assert [STAR, STAR][1..] == [STAR];
  }

  /** Adjacent stars collapse, anywhere in a pattern. */
  lemma StarsCollapse(p: seq<byte>, q: seq<byte>, text: seq<byte>)
    ensures GlobComponentMatch(p + [STAR, STAR] + q, text) <==> GlobComponentMatch(p + [STAR] + q, text)
  {
    assert p + [STAR, STAR] + q == p + ([STAR, STAR] + q);
    assert p + [STAR] + q == p + ([STAR] + q);
    MatchesCompose(p, [STAR, STAR] + q, text);
    MatchesCompose(p, [STAR] + q, text);
    forall k | 0 <= k <= |text|
      ensures GlobComponentMatch([STAR, STAR] + q, text[k..]) <==> GlobComponentMatch([STAR] + q, text[k..])
    {
      StarsLeadAt(q, text[k..]);
    }
  }

  lemma StarsLeadAt(q: seq<byte>, text: seq<byte>)
    ensures GlobComponentMatch([STAR, STAR] + q, text) <==> GlobComponentMatch([STAR] + q, text)
  {
    MatchesCompose([STAR, STAR], q, text);
    MatchesCompose([STAR], q, text);
    forall k | 0 <= k <= |text|
      ensures GlobComponentMatch([STAR, STAR], text[..k]) && GlobComponentMatch([STAR], text[..k])
    {
      TwoStars(text[..k]);
      StarMatchesAll(text[..k]);
    }
  }
}
