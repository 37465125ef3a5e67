/**
 * The front-matter stripper of the post template: `rawMD.replace(re, '')`
 * with `re = /-{3}\n(.+\n)*-{3}\n/gmi`. The `g` flag makes the replacement
 * remove every match, found from left to right, anywhere in the text; `m`
 * and `i` change nothing for this pattern. `.` matches any character but a
 * line terminator, so `(.+\n)*` matches a run of complete non-empty lines.
 * The greedy star, backtracking until the closing `---\n` fits, yields the
 * longest match at a position.
 */
module FrontMatter {
  import opened Wrappers
  import opened JsStrings

  /** The delimiter line `---` with its newline. */
  const Fence: string := "---\n"

  /** The delimiter line starts at index `j` of `s`. */
  predicate FenceAt(s: string, j: int)
  {
    0 <= j && j + 4 <= |s| && s[j] == '-' && s[j + 1] == '-' && s[j + 2] == '-' && s[j + 3] == '\n'
  }

  /** `FenceAt` is an occurrence of `Fence`, read character by character. */
  lemma FenceAtOccurs(s: string, j: int)
    ensures FenceAt(s, j) <==> OccursAt(s, Fence, j)
  {
    if 0 <= j && j + 4 <= |s| {
      var w := s[j..j + 4];
      assert w[0] == s[j] && w[1] == s[j + 1] && w[2] == s[j + 2] && w[3] == s[j + 3];
    }
  }

  /** The characters JavaScript's `.` does not match. */
  predicate IsLineTerminator(c: char)
  {
    c == '\n' || c == '\r' || c == '\U{2028}' || c == '\U{2029}'
  }

  /** `s[a..b]` is matched by `(.+\n)*`: complete lines, none of them empty. */
  predicate IsLines(s: string, a: int, b: int)
    requires 0 <= a <= b <= |s|
  {
    && (a == b || s[b - 1] == '\n')
    && (forall i :: a <= i < b ==> s[i] == '\n' || !IsLineTerminator(s[i]))
    && (forall i :: a <= i < b && s[i] == '\n' ==> a < i && s[i - 1] != '\n')
  }

  /** The pattern matches `s[p..e]`. */
  predicate IsMatch(s: string, p: int, e: int)
  {
    && 0 <= p && p + 8 <= e <= |s|
    && FenceAt(s, p) && FenceAt(s, e - 4)
    && IsLines(s, p + 4, e - 4)
  }

  /** The first line terminator at or after `q`, or the end of the text. */
  function ScanLine(s: string, q: nat): (j: nat)
    requires q <= |s|
    ensures q <= j <= |s|
    ensures forall k :: q <= k < j ==> !IsLineTerminator(s[k])
    ensures j == |s| || IsLineTerminator(s[j])
    decreases |s| - q
  {
    if q == |s| || IsLineTerminator(s[q]) then q else ScanLine(s, q + 1)
  }

  /** Where one iteration of `.+\n` that starts at `q` ends, if it matches. */
  function LineEnd(s: string, q: nat): (r: Option<nat>)
    requires q <= |s|
    ensures r.Some? ==> q + 1 < r.value <= |s| && s[r.value - 1] == '\n'
    ensures r.Some? ==> forall k :: q <= k < r.value - 1 ==> !IsLineTerminator(s[k])
    ensures r.None? ==> forall b :: q < b <= |s| ==> !IsLines(s, q, b)
  {
    var j := ScanLine(s, q);
    if q < j < |s| && s[j] == '\n' then
      Some(j + 1)
    else
      None
  }

  /** Appending one complete non-empty line keeps a run of lines. */
  lemma LinesExtend(s: string, a: int, q: int, e: int)
    requires 0 <= a <= q && q + 1 < e <= |s|
    requires IsLines(s, a, q)
    requires s[e - 1] == '\n' && forall k :: q <= k < e - 1 ==> !IsLineTerminator(s[k])
    ensures IsLines(s, a, e)
  {
  }

  /** A run of lines cut at a line boundary leaves a run of lines. */
  lemma LinesSuffix(s: string, a: int, q: int, b: int)
    requires 0 <= a <= q < b <= |s|
    requires IsLines(s, a, q) && IsLines(s, a, b)
    ensures IsLines(s, q, b)
  {
  }

  /** A closing delimiter cannot start inside text already read as lines. */
  lemma FenceAfterLines(s: string, a: int, q: int, e: int)
    requires 0 <= a <= q < e <= |s| && a <= e - 4
    requires IsLines(s, a, q) && FenceAt(s, e - 4)
    ensures q <= e - 4
  {

  }

  /** When no further line can be read at `q`, no match ends beyond `q`. */
  lemma NoMatchBeyond(s: string, p: nat, q: nat)
    requires p + 4 <= q <= |s| && IsLines(s, p + 4, q)
    requires LineEnd(s, q).None?
    ensures forall e :: IsMatch(s, p, e) ==> e <= q
  {
    forall e | IsMatch(s, p, e) && e > q ensures false {
      FenceAfterLines(s, p + 4, q, e);
      if e - 4 == q {
        assert IsLines(s, q, q + 4);
      } else {
        LinesSuffix(s, p + 4, q, e - 4);
      }
    }
  }

  /** A match that ends within the line `[q, next)` ends with it, and that line is `---`. */
  lemma MatchInLine(s: string, p: nat, q: nat, next: nat)
    requires p + 4 <= q <= |s| && IsLines(s, p + 4, q)
    requires LineEnd(s, q) == Some(next)
    ensures forall e :: IsMatch(s, p, e) && q < e <= next ==> e == next == q + 4 && FenceAt(s, q)
  {
    forall e | IsMatch(s, p, e) && q < e <= next ensures e == next == q + 4 && FenceAt(s, q) {
      FenceAfterLines(s, p + 4, q, e);
    }
  }

  /**
   * The greedy star at work: read lines from `q` while `.+\n` matches,
   * remembering in `best` the end of the last line that is exactly `---`.
   */
  function LastFence(s: string, q: nat, best: Option<nat>): (r: Option<nat>)
    requires q <= |s|
    ensures r.Some? ==> r == best || q + 4 <= r.value <= |s|
    decreases |s| - q
  {
    match LineEnd(s, q)
    case None => best
    case Some(next) => LastFence(s, next, if next == q + 4 && FenceAt(s, q) then Some(next) else best)
  }

  /** `best` is the longest match at `p` that ends by `q`, if there is one. */
  ghost predicate BestSoFar(s: string, p: nat, q: nat, best: Option<nat>)
  {
    && (best.Some? ==> IsMatch(s, p, best.value) && best.value <= q)
    && (forall e :: IsMatch(s, p, e) && e <= q ==> best.Some? && e <= best.value)
  }

  /** Reading one more line keeps `best` the longest match so far. */
  lemma BestStep(s: string, p: nat, q: nat, next: nat, best: Option<nat>)
    requires p + 4 <= q <= |s| && FenceAt(s, p) && IsLines(s, p + 4, q)
    requires BestSoFar(s, p, q, best) && LineEnd(s, q) == Some(next)
    ensures IsLines(s, p + 4, next)
    ensures BestSoFar(s, p, next, if next == q + 4 && FenceAt(s, q) then Some(next) else best)
  {
    LinesExtend(s, p + 4, q, next);
    MatchInLine(s, p, q, next);
  }

  /**
   * Started after an opening delimiter at `p`, with `best` the longest
   * match that ends by `q`, the scan finds the longest match at `p`.
   */
  lemma {:induction false} LastFenceLongest(s: string, p: nat, q: nat, best: Option<nat>)
    requires p + 4 <= q <= |s| && FenceAt(s, p) && IsLines(s, p + 4, q)
    requires BestSoFar(s, p, q, best)
    ensures var r := LastFence(s, q, best);
      && (r.Some? ==> IsMatch(s, p, r.value))
      && (r.Some? ==> forall e :: IsMatch(s, p, e) ==> e <= r.value)
      && (r.None? ==> forall e :: !IsMatch(s, p, e))
    decreases |s| - q
  {
    match LineEnd(s, q)
    case None =>
      NoMatchBeyond(s, p, q);
    case Some(next) =>
      BestStep(s, p, q, next, best);
      LastFenceLongest(s, p, next, if next == q + 4 && FenceAt(s, q) then Some(next) else best);
  }

  /** Where the match the pattern finds at position `p` ends, if there is one. */
  function MatchAt(s: string, p: nat): (r: Option<nat>)
    requires p <= |s|
    ensures r.Some? ==> FenceAt(s, p) && p + 8 <= r.value <= |s|
  {
    if FenceAt(s, p) then LastFence(s, p + 4, None) else None
  }

  /** The match found at `p` is a match and the longest one; none is found only when there is none. */
  lemma MatchAtLongest(s: string, p: nat)
    requires p <= |s|
    ensures MatchAt(s, p).Some? ==> IsMatch(s, p, MatchAt(s, p).value)
    ensures MatchAt(s, p).Some? ==> forall e :: IsMatch(s, p, e) ==> e <= MatchAt(s, p).value
    ensures MatchAt(s, p).None? ==> forall e :: !IsMatch(s, p, e)
  {
    if FenceAt(s, p) {
      LastFenceLongest(s, p, p + 4, None);
    }
  }

  /** The text from `p` on after the global replacement. */
  function ClearFrom(s: string, p: nat): (r: string)
    requires p <= |s|
    ensures |r| <= |s| - p
    decreases |s| - p
  {
    if p == |s| then ""
    else
      match MatchAt(s, p)
      case Some(e) => ClearFrom(s, e)
      case None => [s[p]] + ClearFrom(s, p + 1)
  }

  /** Where the pattern finds no match, the character is kept. */
  lemma KeepChar(s: string, p: nat)
    requires p < |s| && MatchAt(s, p).None?
    ensures ClearFrom(s, p) == [s[p]] + ClearFrom(s, p + 1)
  {
  }

  /** Where the pattern finds a match, the matched text is dropped. */
  lemma DropMatch(s: string, p: nat, e: nat)
    requires p < |s| && MatchAt(s, p) == Some(e)
    ensures ClearFrom(s, p) == ClearFrom(s, e)
  {
  }

  /** A stretch of text where no match starts is copied unchanged. */
  lemma {:induction false} ClearFromPlain(s: string, p: nat, q: nat)
    requires p <= q <= |s|
    requires forall j :: p <= j < q ==> MatchAt(s, j).None?
    ensures ClearFrom(s, p) == s[p..q] + ClearFrom(s, q)
    decreases q - p
  {
    if p < q {
      KeepChar(s, p);
      ClearFromPlain(s, p + 1, q);
      var c, m, t := [s[p]], s[p + 1..q], ClearFrom(s, q);
      assert s[p..q] == c + m;
      assert c + (m + t) == (c + m) + t;
    }
  }

  /**
   * `clearMD`: every delimited block removed. The result is never longer
   * than the input, and a text in which `---` followed by a newline never
   * occurs passes unchanged.
   */
  function ClearMD(rawMD: string): (r: string)
    ensures |r| <= |rawMD|
    ensures !Contains(rawMD, Fence) ==> r == rawMD
  {
    assert !Contains(rawMD, Fence) ==> ClearFrom(rawMD, 0) == rawMD by {
      if !Contains(rawMD, Fence) {
        forall j | 0 <= j < |rawMD| ensures MatchAt(rawMD, j).None? {
          FenceAtOccurs(rawMD, j);
        }
        ClearFromPlain(rawMD, 0, |rawMD|);
      }
    }
    ClearFrom(rawMD, 0)
  }
}

/** Worked examples of the global replacement. */
module FrontMatterExamples {
  import opened Wrappers
  import opened JsStrings
  import opened FrontMatter

  /** A post with a leading front-matter block. */
  const Post: string := "---\ntitle: X\n---\nA\n\nB\n\nC"

  lemma PostTitleLine()
    ensures LineEnd(Post, 4) == Some(13)
  {
    assert ScanLine(Post, 8) == 12;
  }

  lemma PostClosingLine()
    ensures LineEnd(Post, 13) == Some(17) && FenceAt(Post, 13)
  {
  }

  lemma PostBodyLines()
    ensures LineEnd(Post, 17) == Some(19) && LineEnd(Post, 19).None?
  {
  }

  lemma PostMatch()
    ensures MatchAt(Post, 0) == Some(17)
  {
    PostTitleLine();
    PostClosingLine();
    PostBodyLines();
    assert LastFence(Post, 17, Some(17)) == Some(17);
    assert LastFence(Post, 13, None) == Some(17);
  }

  /** No match starts in the body of `Post`. */
  lemma PostBody()
    ensures ClearFrom(Post, 17) == "A\n\nB\n\nC"
  {
    forall j | 17 <= j < |Post| ensures MatchAt(Post, j).None? {
      assert !FenceAt(Post, j);
    }
    ClearFromPlain(Post, 17, |Post|);
  }

  /** A leading block is removed and the body after it kept. */
  lemma LeadingBlock()
    ensures ClearMD(Post) == "A\n\nB\n\nC"
  {
    PostMatch();
    PostBody();
  }

  /** A block in the middle of the text is removed as well. */
  const Inner: string := "A\n---\n---\nB"

  lemma InnerBlock()
    ensures ClearMD(Inner) == "A\nB"
  {
    assert LineEnd(Inner, 6) == Some(10);
    assert MatchAt(Inner, 2) == Some(10);
    ClearFromPlain(Inner, 0, 2);
    ClearFromPlain(Inner, 10, |Inner|);
  }

  /** A text in which removing the one block found joins a new block. */
  const Joined: string := "------\n---\n\n---\n"

  /** What one pass of the replacement leaves of `Joined`. */
  const Rejoined: string := "---\n---\n"

  lemma JoinedMatch()
    ensures MatchAt(Joined, 3) == Some(11)
  {
    assert LineEnd(Joined, 7) == Some(11);
    assert LineEnd(Joined, 11).None?;
  }

  /** The `---` line at the end of `Joined` has no closing line, so it is kept. */
  lemma JoinedTail()
    ensures ClearFrom(Joined, 11) == Joined[11..]
  {
    forall j | 11 <= j < |Joined| ensures MatchAt(Joined, j).None? {
      if j == 12 {
        assert LineEnd(Joined, 16).None?;
      }
    }
    ClearFromPlain(Joined, 11, |Joined|);
  }

  lemma JoinedFirstPass()
    ensures ClearMD(Joined) == Rejoined
  {
    JoinedFront();
  }

  /** The three dashes before the block are kept and the block is dropped. */
  lemma JoinedFront()
    ensures ClearFrom(Joined, 0) == Rejoined
  {
    JoinedMatch();
    forall j | 0 <= j < 3 ensures MatchAt(Joined, j).None? {
      assert !FenceAt(Joined, j);
    }
    ClearFromPlain(Joined, 0, 3);
    DropMatch(Joined, 3, 11);
    JoinedTail();
    assert Joined[0..3] + Joined[11..] == Rejoined;
  }

  lemma RejoinedSecondPass()
    ensures ClearMD(Rejoined) == ""
  {
    assert LineEnd(Rejoined, 4) == Some(8);
    assert MatchAt(Rejoined, 0) == Some(8);
  }

  /**
   * The replacement is not idempotent: removing one block can join the
   * text around it into a new block, which a second pass removes.
   */
  lemma NotIdempotent()
    ensures ClearMD(ClearMD(Joined)) != ClearMD(Joined)
  {
    JoinedFirstPass();
    RejoinedSecondPass();
  }
}
