/** The string operations the views rely on: case folding, substring search,
    joining collection names, and a concrete collation order. */
module Text {
  import Sorting

  predicate IsUpper(c: char) {
    'A' <= c <= 'Z'
  }

  /** ASCII case folding, standing in for String.prototype.toLowerCase. */
  function LowerChar(c: char): (r: char)
    ensures !IsUpper(r)
    ensures !IsUpper(c) ==> r == c
  {
    if IsUpper(c) then (c as int + 32) as char else c
  }

  function Lower(s: string): (r: string)
    ensures |r| == |s|
    ensures forall i :: 0 <= i < |r| ==> !IsUpper(r[i])
    ensures forall i :: 0 <= i < |s| && !IsUpper(s[i]) ==> r[i] == s[i]
  {
    seq(|s|, i requires 0 <= i < |s| => LowerChar(s[i]))
  }

  predicate StartsWith(s: string, prefix: string) {
    |prefix| <= |s| && s[..|prefix|] == prefix
  }

  /** String.prototype.includes: `needle` occurs somewhere in `s`. */
  predicate Contains(s: string, needle: string)
    decreases |s|
  {
    StartsWith(s, needle) || (|s| > 0 && Contains(s[1..], needle))
  }

  /** `needle` occurs in `s` starting at position `k`. */
  ghost predicate OccursAt(s: string, needle: string, k: int) {
    0 <= k && k + |needle| <= |s| && s[k..k + |needle|] == needle
  }

  /** The scanning search finds exactly the occurrences there are. */
  lemma {:induction false} ContainsIffOccurs(s: string, needle: string)
    ensures Contains(s, needle) <==> exists k :: OccursAt(s, needle, k)
    decreases |s|
  {
    if StartsWith(s, needle) {
      assert OccursAt(s, needle, 0);
    }
    if |s| > 0 {
      ContainsIffOccurs(s[1..], needle);
      if Contains(s[1..], needle) {
        var k :| OccursAt(s[1..], needle, k);
        assert s[1..][k..k + |needle|] == s[k + 1..k + 1 + |needle|];
        assert OccursAt(s, needle, k + 1);
      }
      if k :| OccursAt(s, needle, k) {
        if k > 0 {
          assert s[1..][k - 1..k - 1 + |needle|] == s[k..k + |needle|];
          assert OccursAt(s[1..], needle, k - 1);
        } else {
          assert StartsWith(s, needle);
        }
      }
    } else {
      if k :| OccursAt(s, needle, k) {
        assert |needle| == 0;
        assert StartsWith(s, needle);
      }
    }
  }

  /** The empty string occurs in every string. */
  lemma ContainsEmpty(s: string)
    ensures Contains(s, "")
  {
    assert StartsWith(s, "");
  }

  /** Array.prototype.join with the separator ", ". */
  function Join(parts: seq<string>): string
    decreases |parts|
  {
    if |parts| == 0 then ""
    else if |parts| == 1 then parts[0]
    else parts[0] + ", " + Join(parts[1..])
  }

  /** A separator ", " starts at position `i` of `s`. */
  predicate SepAt(s: string, i: int) {
    0 <= i && i + 1 < |s| && s[i] == ',' && s[i + 1] == ' '
  }

  ghost predicate FreeOfSep(s: string) {
    forall i :: !SepAt(s, i)
  }

  /** Position of the first separator, or `|s|` when there is none. */
  function FirstSep(s: string): (k: nat)
    ensures k <= |s|
    ensures k < |s| ==> SepAt(s, k)
    ensures forall i :: 0 <= i < k ==> !SepAt(s, i)
    decreases |s|
  {
    if |s| < 2 then |s|
    else if SepAt(s, 0) then 0
    else
      var k := 1 + FirstSep(s[1..]);
      assert forall i :: 1 <= i < |s| ==> (SepAt(s, i) <==> SepAt(s[1..], i - 1));
      k
  }

  /** Cuts `s` at every separator; the inverse of `Join` on separator-free parts. */
  function Split(s: string): (parts: seq<string>)
    ensures |parts| > 0
    decreases |s|
  {
    var k := FirstSep(s);
    if k == |s| then [s] else [s[..k]] + Split(s[k + 2..])
  }

  /** Joining non-empty lists of separator-free names loses nothing. */
  lemma {:induction false} SplitJoin(parts: seq<string>)
    requires |parts| > 0
    requires forall i :: 0 <= i < |parts| ==> FreeOfSep(parts[i])
    ensures Split(Join(parts)) == parts
    decreases |parts|
  {
    var p := parts[0];
    if |parts| == 1 {
      assert FreeOfSep(p);
      assert !SepAt(p, FirstSep(p));
    } else {
      var rest := Join(parts[1..]);
      var s := p + ", " + rest;
      assert Join(parts) == s;
      assert SepAt(s, |p|);
      forall i | 0 <= i < |p|
        ensures !SepAt(s, i)
      {
        if i + 1 < |p| {
          assert !SepAt(p, i);
        } else {
          assert s[i + 1] == ',';
        }
      }
      var k := FirstSep(s);
      assert k == |p|;
      assert s[..k] == p;
      assert s[k + 2..] == rest;
      SplitJoin(parts[1..]);
      assert parts == [p] + parts[1..];
    }
  }

  /** Lexicographic order on Unicode code points (Dafny's characters); one
      collation a caller may choose. It is not JavaScript's `<`, which compares
      UTF-16 code units and so orders characters beyond U+FFFF differently. */
  predicate CodePointLe(a: string, b: string)
    decreases |a|
  {
    |a| == 0 || (|b| > 0 && (a[0] < b[0] || (a[0] == b[0] && CodePointLe(a[1..], b[1..]))))
  }

  lemma {:induction false} CodePointLeTotalAt(a: string, b: string)
    ensures CodePointLe(a, b) || CodePointLe(b, a)
    decreases |a|
  {
    if |a| > 0 && |b| > 0 && a[0] == b[0] {
      CodePointLeTotalAt(a[1..], b[1..]);
    }
  }

  lemma {:induction false} CodePointLeTransitiveAt(a: string, b: string, c: string)
    requires CodePointLe(a, b) && CodePointLe(b, c)
    ensures CodePointLe(a, c)
    decreases |a|
  {
    if |a| > 0 && a[0] == b[0] && b[0] == c[0] {
      CodePointLeTransitiveAt(a[1..], b[1..], c[1..]);
    }
  }

  /** Code-point order is a total preorder, so it meets what the sort asks of a collation. */
  lemma CodePointLeTotalPreorder()
    ensures Sorting.TotalPreorder(CodePointLe)
  {
    forall a, b
      ensures CodePointLe(a, b) || CodePointLe(b, a)
    {
      CodePointLeTotalAt(a, b);
    }
    forall a, b, c | CodePointLe(a, b) && CodePointLe(b, c)
      ensures CodePointLe(a, c)
    {
      CodePointLeTransitiveAt(a, b, c);
    }
  }
}
