/**
 * The JavaScript string operations the decoder relies on, with their
 * clamping and search semantics written out: `String.prototype.slice` with
 * non-negative bounds, `indexOf` and `Array.prototype.join`, plus `Zeros`, the
 * run of '0' characters the padding loop of `handleZeros` builds.
 */
module JsStrings {

  /** `pat` occurs in `s` starting at index `k`. */
  predicate OccursAt(s: string, pat: string, k: nat) {
    k + |pat| <= |s| && s[k..k + |pat|] == pat
  }

  predicate StartsWith(s: string, prefix: string) {
    |prefix| <= |s| && s[..|prefix|] == prefix
  }

  /**
   * `s.indexOf(pat)`: the first index where `pat` occurs, or -1 when it
   * occurs nowhere. An empty pattern is found at 0.
   */
  function IndexOf(s: string, pat: string): (r: int)
    ensures -1 <= r
    ensures r >= 0 ==> OccursAt(s, pat, r)
    ensures forall k: nat :: k < r ==> !OccursAt(s, pat, k)
    ensures r == -1 ==> forall k: nat :: !OccursAt(s, pat, k)
    decreases |s|
  {
    if |s| < |pat| then -1
    else if s[..|pat|] == pat then 0
    else
      var t := IndexOf(s[1..], pat);
      assert forall k: nat :: 0 < k ==> (OccursAt(s, pat, k) <==> OccursAt(s[1..], pat, k - 1)) by {
        forall k: nat | 0 < k ensures OccursAt(s, pat, k) <==> OccursAt(s[1..], pat, k - 1) {
          OccursShift(s, pat, k);
        }
      }
      assert !OccursAt(s, pat, 0);
      if t == -1 then -1 else t + 1
  }

  /** An occurrence past the first character is an occurrence in the tail, one place earlier. */
  lemma OccursShift(s: string, pat: string, k: nat)
    requires 0 < k && 0 < |s|
    ensures OccursAt(s, pat, k) <==> OccursAt(s[1..], pat, k - 1)
  {
    if k + |pat| <= |s| {
      var u, v := s[k..k + |pat|], s[1..][k - 1..k - 1 + |pat|];
      assert |u| == |v|;
      forall i | 0 <= i < |u| ensures u[i] == v[i] {
        assert u[i] == s[k + i];
        assert v[i] == s[1..][k - 1 + i];
      }
      assert u == v;
    }
  }

  /** `s.indexOf(prefix) == 0` is exactly "s starts with prefix". */
  lemma IndexOfZeroIsPrefix(s: string, prefix: string)
    ensures IndexOf(s, prefix) == 0 <==> StartsWith(s, prefix)
  {
    if StartsWith(s, prefix) {
      assert OccursAt(s, prefix, 0);
    }
  }

  /** `s.slice(begin, end)` for non-negative bounds: both are clamped to `|s|`. */
  function Slice(s: string, begin: nat, end: nat): (r: string)
    ensures |r| <= |s|
    ensures begin <= end <= |s| ==> r == s[begin..end]
    ensures begin < |s| < end ==> r == s[begin..]
    ensures begin >= |s| || end <= begin ==> r == ""
    ensures forall i :: 0 <= i < |r| ==> begin + i < |s| && r[i] == s[begin + i]
  {
    var b := if begin < |s| then begin else |s|;
    var e := if end < |s| then end else |s|;
    if b < e then s[b..e] else ""
  }

  /** `s.slice(begin)` for a non-negative `begin`. */
  function SliceFrom(s: string, begin: nat): (r: string)
    ensures begin <= |s| ==> r == s[begin..]
    ensures begin >= |s| ==> r == ""
  {
    Slice(s, begin, |s|)
  }

  /** A run of `n` zero characters. */
  function Zeros(n: nat): (r: string)
    ensures |r| == n
    ensures forall i :: 0 <= i < n ==> r[i] == '0'
  {
    seq(n, _ => '0')
  }

  /** `parts.join(sep)`. */
  function Join(parts: seq<string>, sep: string): (r: string)
    ensures |parts| > 0 ==> |parts[0]| <= |r| && r[..|parts[0]|] == parts[0]
    decreases |parts|
  {
    if |parts| == 0 then ""
    else if |parts| == 1 then parts[0]
    else parts[0] + sep + Join(parts[1..], sep)
  }

  predicate Lacks(s: string, c: char) {
    forall i :: 0 <= i < |s| ==> s[i] != c
  }

  /**
   * Joining non-empty parts that do not contain the one-character separator
   * loses nothing: the parts can be read back from the joined text.
   */
  lemma {:induction false} JoinInjective(a: seq<string>, b: seq<string>, sep: char)
    requires forall i :: 0 <= i < |a| ==> a[i] != "" && Lacks(a[i], sep)
    requires forall i :: 0 <= i < |b| ==> b[i] != "" && Lacks(b[i], sep)
    requires Join(a, [sep]) == Join(b, [sep])
    ensures a == b
    decreases |a|
  {
    var j := Join(a, [sep]);
    JoinShape(a, sep);
    JoinShape(b, sep);
    if |a| == 1 && |b| == 1 {
      assert a == [j] == b;
    } else if |a| > 1 && |b| > 1 {
      // Both first parts end where the first separator is.
      assert a[0] == j[..|a[0]|] == b[0];
      JoinInjective(a[1..], b[1..], sep);
      assert a == [a[0]] + a[1..];
      assert b == [b[0]] + b[1..];
    }
  }

  /**
   * The shape of a join of non-empty, separator-free parts: it is empty only
   * for no parts, and its first separator sits right after the first part.
   */
  lemma {:induction false} JoinShape(a: seq<string>, sep: char)
    requires forall i :: 0 <= i < |a| ==> a[i] != "" && Lacks(a[i], sep)
    ensures |Join(a, [sep])| == 0 <==> |a| == 0
    ensures |a| == 1 ==> Join(a, [sep]) == a[0] && IndexOf(a[0], [sep]) == -1
    ensures |a| > 1 ==> var j := Join(a, [sep]);
      IndexOf(j, [sep]) == |a[0]| && j[..|a[0]|] == a[0] && j[|a[0]| + 1..] == Join(a[1..], [sep])
  {
    var j := Join(a, [sep]);
    if |a| > 0 {
      assert forall k: nat :: k < |a[0]| ==> !OccursAt(j, [sep], k) by {
        forall k: nat | k < |a[0]| ensures !OccursAt(j, [sep], k) {
          assert j[k..k + 1] == [a[0][k]];
        }
      }
      if |a| == 1 {
        assert forall k: nat :: !OccursAt(j, [sep], k) by {
          forall k: nat | k + 1 <= |j| ensures !OccursAt(j, [sep], k) {
            assert j[k..k + 1] == [a[0][k]];
          }
        }
      } else {
        assert j == a[0] + [sep] + Join(a[1..], [sep]);
        assert OccursAt(j, [sep], |a[0]|);
      }
    }
  }
}
