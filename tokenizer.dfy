/** `parseText` (app.js:58-60): `text.split(/[^a-zA-Z0-9]+/)` followed by
    `toLowerCase` on every piece. Empty pieces are kept. */
module Tokenizer {

  /** The characters of the class `[a-zA-Z0-9]`; every other character is a delimiter. */
  predicate IsWordChar(c: char) {
    'a' <= c <= 'z' || 'A' <= c <= 'Z' || '0' <= c <= '9'
  }

  predicate IsLowerWordChar(c: char) {
    'a' <= c <= 'z' || '0' <= c <= '9'
  }

  /** The ASCII alphabet in both cases; `Lower[k]` is the lower case of `Upper[k]`. */
  const Upper: string := "ABCDEFGHIJKLMNOPQRSTUVWXYZ"
  const Lower: string := "abcdefghijklmnopqrstuvwxyz"

  /** The letters of both alphabets are consecutive code points. */
  lemma Alphabet()
    ensures |Upper| == |Lower| == 26
    ensures forall k :: 0 <= k < 26 ==> Upper[k] as int == 'A' as int + k && Lower[k] as int == 'a' as int + k
  {
  }

  /** `toLowerCase` restricted to the characters a piece can hold: an
      upper-case letter becomes the same letter in lower case, and every
      other character stays. */
  function LowerChar(c: char): (r: char)
    ensures IsWordChar(c) ==> IsLowerWordChar(r)
    ensures forall k :: 0 <= k < |Upper| && c == Upper[k] ==> r == Lower[k]
    ensures !('A' <= c <= 'Z') ==> r == c
  {
    Alphabet();
    if 'A' <= c <= 'Z' then
      assert Upper[c as int - 'A' as int] == c;
      (c as int + 32) as char
    else c
  }

  /** `toLowerCase`: a piece of word characters lowers to lower-case word
      characters; each upper-case letter becomes its lower-case letter, and
      no other character changes. */
  function ToLowerCase(s: string): (r: string)
    ensures |r| == |s|
    ensures (forall i :: 0 <= i < |s| ==> IsWordChar(s[i])) ==> forall i :: 0 <= i < |r| ==> IsLowerWordChar(r[i])
    ensures forall i, k :: 0 <= i < |s| && 0 <= k < |Upper| && s[i] == Upper[k] ==> r[i] == Lower[k]
    ensures forall i :: 0 <= i < |s| && !('A' <= s[i] <= 'Z') ==> r[i] == s[i]
  {
    seq(|s|, i requires 0 <= i < |s| => LowerChar(s[i]))
  }

  /** Two characters that are equal, or the same letter in the two cases. */
  predicate EqualIgnoringCase(x: char, y: char) {
    x == y || exists k :: 0 <= k < |Upper| && ((x == Upper[k] && y == Lower[k]) || (x == Lower[k] && y == Upper[k]))
  }

  /** Two word characters lower to the same character exactly when they agree
      ignoring case. */
  lemma {:induction false} LowerCharSame(x: char, y: char)
    requires IsWordChar(x) && IsWordChar(y)
    ensures LowerChar(x) == LowerChar(y) <==> EqualIgnoringCase(x, y)
  {
    if LowerChar(x) == LowerChar(y) {
      SameLowerAgrees(x, y);
    }
    if EqualIgnoringCase(x, y) {
      AgreeingSameLower(x, y);
    }
  }

  /** The "only if" half of `LowerCharSame`. */
  lemma {:induction false} SameLowerAgrees(x: char, y: char)
    requires IsWordChar(x) && IsWordChar(y) && LowerChar(x) == LowerChar(y)
    ensures EqualIgnoringCase(x, y)
  {
    if x != y {
      if 'A' <= x <= 'Z' {
        var k := x as int - 'A' as int;
        LetterAt(k);
        assert x == Upper[k] && y == Lower[k];
      } else {
        var k := y as int - 'A' as int;
        LetterAt(k);
        assert y == Upper[k] && x == Lower[k];
      }
    }
  }

  /** The "if" half of `LowerCharSame`. */
  lemma {:induction false} AgreeingSameLower(x: char, y: char)
    requires EqualIgnoringCase(x, y)
    ensures LowerChar(x) == LowerChar(y)
  {
    if x != y {
      var k :| 0 <= k < |Upper| && ((x == Upper[k] && y == Lower[k]) || (x == Lower[k] && y == Upper[k]));
      LetterAt(k);
    }
  }

  /** The `k`-th letter in both cases. */
  lemma LetterAt(k: int)
    requires 0 <= k < 26
    ensures |Upper| == |Lower| == 26
    ensures Upper[k] as int == 'A' as int + k && Lower[k] as int == 'a' as int + k
  {
    Alphabet();
  }

  /** Two pieces of word characters give the same token exactly when they
      have the same length and agree letter by letter, ignoring case: "The"
      and "the" are one word, "Apple" and "Bpple" are two. */
  lemma {:induction false} SameTokenIgnoringCase(a: string, b: string)
    requires forall i :: 0 <= i < |a| ==> IsWordChar(a[i])
    requires forall i :: 0 <= i < |b| ==> IsWordChar(b[i])
    ensures ToLowerCase(a) == ToLowerCase(b) <==> |a| == |b| && forall i :: 0 <= i < |a| ==> EqualIgnoringCase(a[i], b[i])
  {
    if |a| == |b| {
      forall i | 0 <= i < |a| ensures ToLowerCase(a)[i] == ToLowerCase(b)[i] <==> EqualIgnoringCase(a[i], b[i]) {
        LowerCharSame(a[i], b[i]);
      }
    }
  }

  /** `text.split(/[^a-zA-Z0-9]+/)`: the pieces between maximal runs of
      delimiters. A leading or trailing run, and the empty text, give `""`. */
  function Split(s: string): (pieces: seq<string>)
    ensures |pieces| >= 1
    ensures s != [] && !IsWordChar(s[0]) ==> pieces[0] == ""
  {
    if s == [] then [""]
    else if IsWordChar(s[0]) then
      var rest := Split(s[1..]);
      [[s[0]] + rest[0]] + rest[1..]
    else if |s| > 1 && !IsWordChar(s[1]) then Split(s[1..])
    else [""] + Split(s[1..])
  }

  /** The maximal runs of delimiters of `s`, in order. */
  function DelimiterRuns(s: string): (runs: seq<string>)
    ensures s != [] && !IsWordChar(s[0]) ==> |runs| >= 1 && runs[0] != [] && runs[0][0] == s[0]
  {
    if s == [] then []
    else if IsWordChar(s[0]) then DelimiterRuns(s[1..])
    else if |s| > 1 && !IsWordChar(s[1]) then
      var rest := DelimiterRuns(s[1..]);
      [[s[0]] + rest[0]] + rest[1..]
    else [[s[0]]] + DelimiterRuns(s[1..])
  }

  /** `pieces[0] + runs[0] + pieces[1] + ... + runs[n-1] + pieces[n]`. */
  function Interleave(pieces: seq<string>, runs: seq<string>): string
    requires |pieces| == |runs| + 1
  {
    if runs == [] then pieces[0] else pieces[0] + runs[0] + Interleave(pieces[1..], runs[1..])
  }

  /** Lower-casing twice is lower-casing once. */
  lemma {:induction false} ToLowerCaseIdempotent(s: string)
    ensures ToLowerCase(ToLowerCase(s)) == ToLowerCase(s)
  {
    var r := ToLowerCase(s);
    forall i | 0 <= i < |s| ensures ToLowerCase(r)[i] == r[i] {
      assert r[i] == LowerChar(s[i]);
    }
  }

  function ParseText(text: string): (words: seq<string>) {
    var pieces := Split(text);
    seq(|pieces|, i requires 0 <= i < |pieces| => ToLowerCase(pieces[i]))
  }

  lemma {:induction false} InterleaveGrowPiece(c: char, ps: seq<string>, rs: seq<string>)
    requires |ps| == |rs| + 1
    ensures Interleave([[c] + ps[0]] + ps[1..], rs) == [c] + Interleave(ps, rs)
  {
    var qs := [[c] + ps[0]] + ps[1..];
    if rs != [] {
      assert qs[1..] == ps[1..];
    }
  }

  lemma {:induction false} InterleaveGrowRun(c: char, ps: seq<string>, rs: seq<string>)
    requires |ps| == |rs| + 1 && rs != [] && ps[0] == ""
    ensures Interleave(ps, [[c] + rs[0]] + rs[1..]) == [c] + Interleave(ps, rs)
  {
    var qs := [[c] + rs[0]] + rs[1..];
    assert qs[1..] == rs[1..];
  }

  lemma {:induction false} InterleaveNewRun(c: char, ps: seq<string>, rs: seq<string>)
    requires |ps| == |rs| + 1
    ensures Interleave([""] + ps, [[c]] + rs) == [c] + Interleave(ps, rs)
  {
    assert ([""] + ps)[1..] == ps;
    assert ([[c]] + rs)[1..] == rs;
  }

  /** Splitting is undone by putting the delimiter runs back, and there is
      one more piece than runs. */
  lemma {:induction false} SplitInterleave(s: string)
    ensures |Split(s)| == |DelimiterRuns(s)| + 1
    ensures Interleave(Split(s), DelimiterRuns(s)) == s
  {
    if s != [] {
      var t := s[1..];
      SplitInterleave(t);
      assert s == [s[0]] + t;
      if IsWordChar(s[0]) {
        InterleaveGrowPiece(s[0], Split(t), DelimiterRuns(t));
      } else if |s| > 1 && !IsWordChar(s[1]) {
        InterleaveGrowRun(s[0], Split(t), DelimiterRuns(t));
      } else {
        InterleaveNewRun(s[0], Split(t), DelimiterRuns(t));
      }
    }
  }

  /** Every piece holds only word characters. */
  lemma {:induction false} SplitPiecesAreWords(s: string)
    ensures forall i, j :: 0 <= i < |Split(s)| && 0 <= j < |Split(s)[i]| ==> IsWordChar(Split(s)[i][j])
  {
    if s != [] {
      var t := s[1..];
      SplitPiecesAreWords(t);
      var pt, p := Split(t), Split(s);
      if IsWordChar(s[0]) {
        forall i, j | 0 <= i < |p| && 0 <= j < |p[i]| ensures IsWordChar(p[i][j]) {
          if i == 0 {
            if j > 0 { assert p[0][j] == pt[0][j - 1]; }
          } else {
            assert p[i] == pt[i];
          }
        }
      } else if !(|s| > 1 && !IsWordChar(s[1])) {
        forall i, j | 0 <= i < |p| && 0 <= j < |p[i]| ensures IsWordChar(p[i][j]) {
          assert p[i] == pt[i - 1];
        }
      }
    }
  }

  /** Every run is a non-empty sequence of delimiters. */
  lemma {:induction false} DelimiterRunsAreDelimiters(s: string)
    ensures forall i :: 0 <= i < |DelimiterRuns(s)| ==> DelimiterRuns(s)[i] != []
    ensures forall i, j :: 0 <= i < |DelimiterRuns(s)| && 0 <= j < |DelimiterRuns(s)[i]| ==> !IsWordChar(DelimiterRuns(s)[i][j])
  {
    if s != [] {
      var t := s[1..];
      DelimiterRunsAreDelimiters(t);
      var rt, r := DelimiterRuns(t), DelimiterRuns(s);
      if IsWordChar(s[0]) {
      } else if |s| > 1 && !IsWordChar(s[1]) {
        forall i, j | 0 <= i < |r| && 0 <= j < |r[i]| ensures !IsWordChar(r[i][j]) {
          if i == 0 {
            if j > 0 { assert r[0][j] == rt[0][j - 1]; }
          } else {
            assert r[i] == rt[i];
          }
        }
        forall i | 0 <= i < |r| ensures r[i] != [] {
          if i > 0 { assert r[i] == rt[i]; }
        }
      } else {
        forall i, j | 0 <= i < |r| && 0 <= j < |r[i]| ensures !IsWordChar(r[i][j]) {
          if i > 0 { assert r[i] == rt[i - 1]; }
        }
        forall i | 0 <= i < |r| ensures r[i] != [] {
          if i > 0 { assert r[i] == rt[i - 1]; }
        }
      }
    }
  }

  /** No piece strictly between two delimiter runs is empty, so the runs
      really are maximal; a text that starts with a word character starts
      with a non-empty piece. */
  lemma {:induction false} SplitInteriorNonEmpty(s: string)
    ensures forall i :: 0 < i < |Split(s)| - 1 ==> Split(s)[i] != []
    ensures s != [] && IsWordChar(s[0]) ==> Split(s)[0] != []
  {
    if s != [] {
      var t := s[1..];
      SplitInteriorNonEmpty(t);
      var pt, p := Split(t), Split(s);
      if IsWordChar(s[0]) {
        forall i | 0 < i < |p| - 1 ensures p[i] != [] {
          assert p[i] == pt[i];
        }
      } else if !(|s| > 1 && !IsWordChar(s[1])) {
        forall i | 0 < i < |p| - 1 ensures p[i] != [] {
          assert p[i] == pt[i - 1];
          if i == 1 { assert t != [] && IsWordChar(t[0]); }
        }
      }
    }
  }

  /** The pieces are exactly what lies between the maximal delimiter runs:
      together the facts below characterise `Split(s)`. */
  lemma {:induction false} SplitRoundTrip(s: string)
    ensures |Split(s)| == |DelimiterRuns(s)| + 1
    ensures Interleave(Split(s), DelimiterRuns(s)) == s
    ensures forall i, j :: 0 <= i < |Split(s)| && 0 <= j < |Split(s)[i]| ==> IsWordChar(Split(s)[i][j])
    ensures forall i, j :: 0 <= i < |DelimiterRuns(s)| && 0 <= j < |DelimiterRuns(s)[i]| ==> !IsWordChar(DelimiterRuns(s)[i][j])
    ensures forall i :: 0 <= i < |DelimiterRuns(s)| ==> DelimiterRuns(s)[i] != []
    ensures forall i :: 0 < i < |Split(s)| - 1 ==> Split(s)[i] != []
  {
    SplitInterleave(s);
    SplitPiecesAreWords(s);
    DelimiterRunsAreDelimiters(s);
    SplitInteriorNonEmpty(s);
  }

  /** Every token is made of lower-case ASCII letters and digits (it may be
      empty), there is one token per piece, and the token count is the number
      of maximal delimiter runs plus one. */
  lemma {:induction false} ParseTextTokens(text: string)
    ensures |ParseText(text)| == |DelimiterRuns(text)| + 1
    ensures forall i :: 0 <= i < |ParseText(text)| ==> ParseText(text)[i] == ToLowerCase(Split(text)[i])
    ensures forall w, j :: w in ParseText(text) && 0 <= j < |w| ==> IsLowerWordChar(w[j])
  {
    SplitRoundTrip(text);
    var words, pieces := ParseText(text), Split(text);
    forall w, j | w in words && 0 <= j < |w| ensures IsLowerWordChar(w[j]) {
      var i :| 0 <= i < |words| && words[i] == w;
      assert w[j] == LowerChar(pieces[i][j]);
    }
  }
}
