/**
 * The two JavaScript string operations the post template relies on:
 * `String.prototype.split` with a non-empty string separator and
 * `Array.prototype.join`. A JavaScript string is modelled as a `string`
 * (a sequence of characters).
 */
module JsStrings {
  import opened Wrappers

  /** `d` occurs in `s` starting at index `j`. */
  predicate OccursAt(s: string, d: string, j: int)
  {
    0 <= j && j + |d| <= |s| && s[j..j + |d|] == d
  }

  /** `d` occurs somewhere in `s`. */
  predicate Contains(s: string, d: string)
  {
    exists j :: 0 <= j <= |s| && OccursAt(s, d, j)
  }

  /** An occurrence in `s[1..]` is an occurrence in `s` one place later. */
  lemma OccursShift(s: string, d: string, j: int)
    requires |s| > 0 && 0 <= j
    ensures OccursAt(s[1..], d, j) <==> OccursAt(s, d, j + 1)
  {
    if j + |d| <= |s| - 1 {
      assert s[1..][j..j + |d|] == s[j + 1..j + 1 + |d|];
    }
  }

  /** An occurrence inside a prefix of `s` is an occurrence in `s`. */
  lemma OccursInPrefix(s: string, d: string, i: int, j: int)
    requires 0 <= i <= |s|
    ensures OccursAt(s[..i], d, j) ==> OccursAt(s, d, j) && j + |d| <= i
  {
    if OccursAt(s[..i], d, j) {
      assert s[..i][j..j + |d|] == s[j..j + |d|];
    }
  }

  /** The index of the first occurrence of `d` in `s` (String.prototype.indexOf). */
  function IndexOf(s: string, d: string): (r: Option<nat>)
    requires |d| > 0
    ensures r.Some? ==> OccursAt(s, d, r.value)
    ensures r.Some? ==> forall j :: 0 <= j < r.value ==> !OccursAt(s, d, j)
    ensures r.None? <==> !Contains(s, d)
    decreases |s|
  {
    if |s| < |d| then
      None
    else if s[..|d|] == d then
      assert OccursAt(s, d, 0);
      Some(0)
    else
      match IndexOf(s[1..], d)
      case None =>
        assert forall j :: !OccursAt(s, d, j) by {
          forall j | OccursAt(s, d, j) ensures false {
            assert j != 0;
            OccursShift(s, d, j - 1);
          }
        }
        None
      case Some(k) =>
        OccursShift(s, d, k);
        assert forall j :: 0 <= j < k + 1 ==> !OccursAt(s, d, j) by {
          forall j | 0 < j < k + 1 ensures !OccursAt(s, d, j) {
            OccursShift(s, d, j - 1);
          }
        }
        Some(k + 1)
  }

  /** The first occurrence is the index of. */
  lemma IndexOfFirst(s: string, d: string, i: nat)
    requires |d| > 0 && OccursAt(s, d, i)
    requires forall j :: 0 <= j < i ==> !OccursAt(s, d, j)
    ensures IndexOf(s, d) == Some(i)
  {
  }

  /**
   * `s.split(d)`: the pieces of `s` between the non-overlapping
   * occurrences of `d`, found from left to right.
   */
  function Split(s: string, d: string): (r: seq<string>)
    requires |d| > 0
    ensures |r| >= 1
    decreases |s|
  {
    match IndexOf(s, d)
    case None => [s]
    case Some(i) => [s[..i]] + Split(s[i + |d|..], d)
  }

  /** `parts.join(d)`: the parts with `d` between each two neighbours. */
  function Join(parts: seq<string>, d: string): string
  {
    if |parts| == 0 then ""
    else if |parts| == 1 then parts[0]
    else parts[0] + d + Join(parts[1..], d)
  }

  /** Joining the pieces of a split with the same separator gives the text back. */
  lemma {:induction false} SplitJoin(s: string, d: string)
    requires |d| > 0
    ensures Join(Split(s, d), d) == s
    decreases |s|
  {
    match IndexOf(s, d)
    case None =>
    case Some(i) =>
      var rest := s[i + |d|..];
      var parts := Split(s, d);
      SplitJoin(rest, d);
      assert parts == [s[..i]] + Split(rest, d);
      assert |parts| >= 2 && parts[0] == s[..i] && parts[1..] == Split(rest, d);
      assert Join(parts, d) == s[..i] + d + Join(Split(rest, d), d);
      assert s == s[..i] + d + rest by {
        assert OccursAt(s, d, i);
        assert s[i..i + |d|] == d;
        assert s == s[..i] + s[i..i + |d|] + rest;
      }
  }

  /** The empty string splits into exactly one empty piece. */
  lemma SplitEmpty(d: string)
    requires |d| > 0
    ensures Split("", d) == [""]
  {
    assert !OccursAt("", d, 0);
  }

  /** No piece of a split contains the separator. */
  lemma {:induction false} SplitPiecesFree(s: string, d: string)
    requires |d| > 0
    ensures forall k :: 0 <= k < |Split(s, d)| ==> !Contains(Split(s, d)[k], d)
    decreases |s|
  {
    match IndexOf(s, d)
    case None =>
    case Some(i) =>
      var rest := s[i + |d|..];
      SplitPiecesFree(rest, d);
      assert !Contains(s[..i], d) by {
        forall j | OccursAt(s[..i], d, j) ensures false {
          OccursInPrefix(s, d, i, j);
        }
      }
      assert Split(s, d) == [s[..i]] + Split(rest, d);
  }

  /** A split has a single piece exactly when the separator does not occur. */
  lemma {:induction false} SplitSingle(s: string, d: string)
    requires |d| > 0
    ensures |Split(s, d)| == 1 <==> !Contains(s, d)
  {
    match IndexOf(s, d)
    case None =>
    case Some(i) =>
      assert Split(s, d) == [s[..i]] + Split(s[i + |d|..], d);
  }

  /** The first piece is the text before the first occurrence (all of it if none). */
  lemma SplitFirst(s: string, d: string)
    requires |d| > 0
    ensures IndexOf(s, d).None? ==> Split(s, d) == [s]
    ensures IndexOf(s, d).Some? ==>
      |Split(s, d)| >= 2 &&
      Split(s, d)[0] == s[..IndexOf(s, d).value] &&
      Split(s, d)[1..] == Split(s[IndexOf(s, d).value + |d|..], d)
  {
    match IndexOf(s, d)
    case None =>
    case Some(i) =>
      var parts := Split(s, d);
      assert parts == [s[..i]] + Split(s[i + |d|..], d);
      assert parts[1..] == Split(s[i + |d|..], d);
  }

  /** Joining two non-empty lists is joining their joins. */
  lemma {:induction false} JoinAppend(a: seq<string>, b: seq<string>, d: string)
    requires |a| > 0 && |b| > 0
    ensures Join(a + b, d) == Join(a, d) + d + Join(b, d)
    decreases |a|
  {
    if |a| == 1 {
      assert (a + b)[1..] == b;
    } else {
      JoinAppend(a[1..], b, d);
      assert (a + b)[1..] == a[1..] + b;
    }
  }

  /** `m` occurs in `x + m + y` right after `x`. */
  lemma OccursBetween(x: string, m: string, y: string)
    ensures OccursAt(x + m + y, m, |x|)
  {
    assert (x + m + y)[|x|..|x| + |m|] == m;
  }

  /** The join of a run of consecutive parts occurs in the join of all the parts. */
  lemma JoinInfix(parts: seq<string>, a: int, b: int, d: string)
    requires 0 <= a <= b <= |parts|
    ensures Contains(Join(parts, d), Join(parts[a..b], d))
  {
    var s, m := Join(parts, d), Join(parts[a..b], d);
    if a == b {
      assert OccursAt(s, m, 0);
    } else {
      var pre, mid, post := parts[..a], parts[a..b], parts[b..];
      var x := if a > 0 then Join(pre, d) + d else "";
      var y := if b < |parts| then d + Join(post, d) else "";
      assert Join(parts[a..], d) == m + y by {
        if b < |parts| {
          assert mid + post == parts[a..];
          JoinAppend(mid, post, d);
          assert y == d + Join(post, d);
          assert Join(parts[a..], d) == Join(mid, d) + d + Join(post, d);
        } else {
          assert mid == parts[a..];
        }
      }
      assert s == x + Join(parts[a..], d) by {
        if a > 0 {
          JoinAppend(pre, parts[a..], d);
          assert pre + parts[a..] == parts;
        } else {
          assert parts[a..] == parts;
        }
      }
      assert s == x + m + y;
      OccursBetween(x, m, y);
    }
  }
}
