/** Searching and comparing the text of a std::string: find, rfind and compare. */
module LibcppSearch {
  import opened Machine
  import opened LibcppString

  // ----- find and rfind ---------------------------------------------------------------------

  /** The first place of the needle from pos on, or in reverse the last one up to pos; npos if there is none. */
  method FindChar(s: seq<byte>, needle: byte, pos: u64, reverse: bool) returns (index: nat)
    requires |s| <= MAX_STRING_LEN
    ensures index != NPOS ==> index < |s| && s[index] == needle && if reverse then index <= pos else pos <= index
    ensures forall i :: 0 <= i < |s| && s[i] == needle ==>
              if reverse then i > pos || (index != NPOS && i <= index)
              else i < pos || (index != NPOS && index <= i)
  {
    if s == [] {
      return NPOS;
    }
    if reverse {
      var i := Min(pos, |s| - 1) + 1;
      while i > 0
        invariant 0 <= i <= |s| && i <= pos + 1
        invariant forall j :: i <= j < |s| && j <= pos ==> s[j] != needle
      {
        i := i - 1;
        if s[i] == needle {
          return i;
        }
      }
      return NPOS;
    }
    if pos >= |s| {
      return NPOS;
    }
    for i := pos to |s|
      invariant forall j :: pos <= j < i ==> s[j] != needle
    {
      if s[i] == needle {
        return i;
      }
    }
    index := NPOS;
  }

  // ----- compare ----------------------------------------------------------------------------

  /** a comes before b: they agree on the first k bytes, and there a ends or has the smaller byte. */
  ghost predicate Before(a: seq<byte>, b: seq<byte>)
  {
    exists k: nat :: BeforeAt(a, b, k)
  }

  predicate BeforeAt(a: seq<byte>, b: seq<byte>, k: nat)
  {
    k <= |a| && k < |b| && a[..k] == b[..k] && (k == |a| || a[k] < b[k])
  }

  lemma AgreeBelow(a: seq<byte>, b: seq<byte>, k: nat, j: nat)
    requires j < k <= |a| && k <= |b| && a[..k] == b[..k]
    ensures a[j] == b[j]
  {
    assert a[..k][j] == b[..k][j];
  }

  lemma BeforeIrreflexive(a: seq<byte>)
    ensures !Before(a, a)
  {
  }

  lemma BeforeAsymmetric(a: seq<byte>, b: seq<byte>)
    requires Before(a, b)
    ensures !Before(b, a)
  {
    var k: nat :| BeforeAt(a, b, k);
    if j: nat :| BeforeAt(b, a, j) {
      if j < k {
        AgreeBelow(a, b, k, j);
      } else if k < j {
        AgreeBelow(b, a, j, k);
      }
    }
  }

  lemma BeforeTransitive(a: seq<byte>, b: seq<byte>, c: seq<byte>)
    requires Before(a, b) && Before(b, c)
    ensures Before(a, c)
  {
    var j: nat :| BeforeAt(a, b, j);
    var k: nat :| BeforeAt(b, c, k);
    var m := Min(j, k);
    assert a[..m] == a[..j][..m] == b[..j][..m] == b[..m];
    assert b[..m] == b[..k][..m] == c[..k][..m] == c[..m];
    if j < k {
      AgreeBelow(b, c, k, j);
    } else if k < j {
      AgreeBelow(a, b, j, k);
    }
    assert BeforeAt(a, c, m);
  }

  /** The difference of the first bytes that differ; if one text is a prefix of the other, their order by length. */
  method CompareBytes(left: seq<byte>, right: seq<byte>) returns (order: int)
    ensures order < 0 <==> Before(left, right)
    ensures order > 0 <==> Before(right, left)
    ensures order == 0 <==> left == right
    ensures forall k :: 0 <= k < |left| && k < |right| && left[..k] == right[..k] && left[k] != right[k] ==>
              order == left[k] as int - right[k] as int
    ensures left < right ==> order == -1
    ensures right < left ==> order == 1
  {
    var len := Min(|left|, |right|);
    for index := 0 to len
      invariant left[..index] == right[..index]
    {
      if left[index] != right[index] {
        forall k | 0 <= k < len && left[..k] == right[..k] && left[k] != right[k]
          ensures k == index
        {
          if k < index {
            AgreeBelow(left, right, index, k);
          } else if k > index {
            AgreeBelow(left, right, k, index);
          }
        }
        if left[index] < right[index] {
          assert BeforeAt(left, right, index);
          BeforeAsymmetric(left, right);
        } else {
          assert BeforeAt(right, left, index);
          BeforeAsymmetric(right, left);
        }
        return (left[index] as int) - (right[index] as int);
      }
    }
    forall k | 0 <= k < len
      ensures left[k] == right[k]
    {
      AgreeBelow(left, right, len, k);
    }
    if |left| < |right| {
      assert BeforeAt(left, right, len);
      BeforeAsymmetric(left, right);
      return -1;
    }
    if |left| > |right| {
      assert BeforeAt(right, left, len);
      BeforeAsymmetric(right, left);
      return 1;
    }
    assert left[..len] == left && right[..len] == right;
    BeforeIrreflexive(left);
    order := 0;
  }

  /** compare(pos, len, text): the order of the substring, cut off at the end of the string, and the other text. */
  method CompareSubstring(left: seq<byte>, pos: u64, len: u64, right: seq<byte>) returns (order: int)
    requires |left| <= MAX_STRING_LEN
    ensures var from := Min(pos, |left|);
            var part := left[from..Min(from + len, |left|)];
            && (order < 0 <==> Before(part, right))
            && (order > 0 <==> Before(right, part))
            && (order == 0 <==> part == right)
  {
    var from := Min(pos, |left|);
    var end := if len == NPOS then |left| else Min(SaturatingAdd(from, len), |left|);
    order := CompareBytes(left[from..end], right);
  }
}
