/** `getClass` (app.js:154-158): the CSS class of a node while the mouse
    hovers over the node of the word `word` (or over no node). */
module Hover {
  import opened Dicts
  import opened Edges

  datatype Option<T> = None | Some(value: T)

  /** `'plain'`, `'selected'` and `'related' + tier`. */
  datatype CssClass = Plain | Selected | Related(tier: nat)

  /** `Math.round(Math.sqrt(n))`, searched upwards from `r`: the integer
      nearest to the square root of `n`. `sqrt(n)` never lies exactly half-way
      between two integers, so `r - 1/2 < sqrt(n) < r + 1/2`, which squared
      and multiplied by 4 reads as below. */
  function RoundSqrtFrom(n: nat, r: nat): (s: nat)
    requires r == 0 || (2 * r - 1) * (2 * r - 1) < 4 * n
    ensures 4 * n < (2 * s + 1) * (2 * s + 1)
    ensures s == 0 || (2 * s - 1) * (2 * s - 1) < 4 * n
    decreases 4 * n - r
  {
    if 4 * n < (2 * r + 1) * (2 * r + 1) then r
    else
      assert (2 * r + 1) * (2 * r + 1) == 4 * (r * r + r) + 1;
      assert r < 4 * n by {
        if r > 0 { SquareAtLeast(2 * r - 1); }
      }
      RoundSqrtFrom(n, r + 1)
  }

  lemma {:induction false} SquareAtLeast(a: nat)
    ensures a <= a * a
  {
    if a > 0 {
      assert a * a == a * (a - 1) + a;
    }
  }

  function RoundSqrt(n: nat): (r: nat)
    ensures 4 * n < (2 * r + 1) * (2 * r + 1)
    ensures r == 0 || (2 * r - 1) * (2 * r - 1) < 4 * n
  {
    RoundSqrtFrom(n, 0)
  }

  lemma {:induction false} SquareMonotone(a: nat, b: nat)
    requires a <= b
    ensures a * a <= b * b
  {
    assert b * b - a * a == (b - a) * (b + a);
  }

  /** The bracket of `RoundSqrt` has only one solution, so `RoundSqrt` is
      `Math.round(Math.sqrt(n))` and not merely some nearby integer. */
  lemma {:induction false} RoundSqrtUnique(n: nat, s: nat)
    requires 4 * n < (2 * s + 1) * (2 * s + 1)
    requires s == 0 || (2 * s - 1) * (2 * s - 1) < 4 * n
    ensures s == RoundSqrt(n)
  {
    var r := RoundSqrt(n);
    if s < r {
      SquareMonotone(2 * s + 1, 2 * r - 1);
    } else if r < s {
      SquareMonotone(2 * r + 1, 2 * s - 1);
    }
  }

  /** The square root of a perfect square is exact. */
  lemma {:induction false} RoundSqrtOfSquare(k: nat)
    ensures RoundSqrt(k * k) == k
  {
    assert (2 * k + 1) * (2 * k + 1) == 4 * (k * k) + 4 * k + 1;
    if k > 0 {
      assert (2 * k - 1) * (2 * k - 1) == 4 * (k * k) - 4 * k + 1;
    }
    RoundSqrtUnique(k * k, k);
  }

  /** A larger count never gets a smaller tier. */
  lemma {:induction false} RoundSqrtMonotone(m: nat, n: nat)
    requires m <= n
    ensures RoundSqrt(m) <= RoundSqrt(n)
  {
    var r, s := RoundSqrt(m), RoundSqrt(n);
    if s < r {
      SquareMonotone(2 * s + 1, 2 * r - 1);
    }
  }

  /** `Math.min(8, Math.round(Math.sqrt(count)))`: a count of at least 1
      gets a tier between 1 and 8. */
  function Tier(count: nat): (t: nat)
    ensures t <= 8
    ensures count >= 1 ==> 1 <= t
  {
    if RoundSqrt(count) < 8 then RoundSqrt(count) else 8
  }

  /** Counts of 57 and above all share the darkest tier: 57 is the smallest
      count whose rounded square root reaches 8. */
  lemma {:induction false} TierSaturates(count: nat)
    ensures Tier(count) == 8 <==> count >= 57
  {
    if count >= 57 {
      RoundSqrtOfSquare(8);
      assert RoundSqrt(57) == 8 by {
        RoundSqrtUnique(57, 8);
      }
      RoundSqrtMonotone(57, count);
    } else {
      RoundSqrtUnique(56, 7);
      RoundSqrtMonotone(count, 56);
    }
  }

  /** `getClass(d)` for the node of `word`, where `hovered` is the word of the
      node under the mouse, if any. */
  function GetClass(hovered: Option<string>, word: string, edges: EdgeMap): (c: CssClass)
    ensures c == Selected <==> hovered == Some(word)
    ensures c.Related? <==> hovered.Some? && hovered.value != word && hovered.value != "" && Has2(edges, hovered.value, word)
    ensures c.Related? ==> c.tier == Tier(Lookup2(edges, hovered.value, word))
  {
    match hovered
    case None => Plain
    case Some(h) =>
      if h == word then Selected
      // `word && ...`: the empty word is falsy, so hovering over it relates nothing.
      else if h != "" && h in edges.vals && word in edges.vals[h].vals then Related(Tier(edges.vals[h].vals[word]))
      else Plain
  }

  /** With nothing under the mouse every node is plain. */
  lemma {:induction false} NothingHovered(word: string, edges: EdgeMap)
    ensures GetClass(None, word, edges) == Plain
  {
  }

  /** Hovering over the node of the empty word selects that node and leaves
      every other node plain. */
  lemma {:induction false} EmptyWordHovered(word: string, edges: EdgeMap)
    ensures GetClass(Some(""), word, edges) == if word == "" then Selected else Plain
  {
  }

  /** In an object whose counts are all at least 1, a related node has a
      tier between 1 and 8 that grows with the count. */
  lemma {:induction false} RelatedTier(h: string, word: string, word2: string, edges: EdgeMap)
    requires Has2(edges, h, word) && edges.vals[h].vals[word] >= 1
    requires h != word && h != ""
    ensures GetClass(Some(h), word, edges).Related?
    ensures 1 <= GetClass(Some(h), word, edges).tier <= 8
    ensures Has2(edges, h, word2) && word2 != h && edges.vals[h].vals[word] <= edges.vals[h].vals[word2] ==>
      GetClass(Some(h), word, edges).tier <= GetClass(Some(h), word2, edges).tier
  {
    if Has2(edges, h, word2) && word2 != h && edges.vals[h].vals[word] <= edges.vals[h].vals[word2] {
      RoundSqrtMonotone(edges.vals[h].vals[word], edges.vals[h].vals[word2]);
    }
  }
}
